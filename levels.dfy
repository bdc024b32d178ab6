/** The standalone level meter (src/main/Levels.java): every read of the capture
    line is decoded as big-endian signed 24-bit PCM twice, once as if it were mono
    (3-byte groups) and once as stereo frames (6 bytes: left, then right), the
    squares are summed in Java `int` arithmetic, and at most once per second a
    line of figures is printed. */
module Levels {
  import opened JavaInt
  import opened Wrappers

  /** Size of the capture buffer: 682 stereo frames of 24-bit samples. */
  const BUFFER_SIZE: nat := 4092

  // ---------------------------------------------------------------------------
  // Sample decoding

  /** The unsigned 24-bit value of three big-endian bytes. */
  function Unsigned24(b0: bv8, b1: bv8, b2: bv8): int {
    b0 as int * 0x1_0000 + b1 as int * 0x100 + b2 as int
  }

  /** The 32-bit pattern the decode expression builds: the three bytes masked
      with 0xFF and shifted into bits 23..0, then bits 31..24 set when bit 23
      (the 24-bit sign bit) is set. */
  function Decode24(b0: bv8, b1: bv8, b2: bv8): bv32 {
    var v := ((b0 as bv32) << 16) | ((b1 as bv32) << 8) | (b2 as bv32);
    if v & 0x80_0000 != 0 then v | 0xFF00_0000 else v
  }

  /** The Java `int` sample the decode produces: the two's-complement value of
      the 24 bits, sign-extended to 32. */
  function Sample24(b0: bv8, b1: bv8, b2: bv8): int {
    Int32(Decode24(b0, b1, b2))
  }

  /** The decoded sample is the two's-complement value of the 24 bits: negative
      exactly when bit 7 of the first byte is set, and then 2^24 below the
      unsigned value; so it always lies in the signed 24-bit range. */
  lemma Sample24Value(b0: bv8, b1: bv8, b2: bv8)
    ensures Sample24(b0, b1, b2) == Unsigned24(b0, b1, b2) - (if b0 >= 0x80 then 0x100_0000 else 0)
    ensures -0x80_0000 <= Sample24(b0, b1, b2) < 0x80_0000
    ensures Sample24(b0, b1, b2) < 0 <==> b0 >= 0x80
  {
    var v := Decode24(b0, b1, b2);
    Decode24Value(b0, b1, b2);
    BvBounds(v);
    ByteBounds(b0);
    var u := Unsigned24(b0, b1, b2);
    assert 0 <= u < 0x100_0000;
    if b0 >= 0x80 {
      assert u >= 0x80_0000 && v as int == u + 0xFF00_0000;
      assert Int32(v) == u - 0x100_0000;
    } else {
      assert u < 0x80_0000 && v as int == u;
      assert Int32(v) == u;
    }
  }

  lemma ByteBounds(b: bv8)
    ensures 0 <= b as int < 256
    ensures b >= 0x80 <==> b as int >= 128
  {
  }

  lemma Decode24Value(b0: bv8, b1: bv8, b2: bv8)
    ensures Decode24(b0, b1, b2) as int == Unsigned24(b0, b1, b2) + (if b0 >= 0x80 then 0xFF00_0000 else 0)
  {
    Assemble24(b0, b1, b2);
    if b0 >= 0x80 {
      SignFill(((b0 as bv32) << 16) | ((b1 as bv32) << 8) | (b2 as bv32));
    }
  }

  lemma Assemble24(b0: bv8, b1: bv8, b2: bv8)
    ensures (((b0 as bv32) << 16) | ((b1 as bv32) << 8) | (b2 as bv32)) as int == Unsigned24(b0, b1, b2)
    ensures (((b0 as bv32) << 16) | ((b1 as bv32) << 8) | (b2 as bv32)) & 0x80_0000 != 0 <==> b0 >= 0x80
    ensures ((b0 as bv32) << 16) | ((b1 as bv32) << 8) | (b2 as bv32) < 0x100_0000
  {
  }

  lemma SignFill(v: bv32)
    requires v < 0x100_0000
    ensures (v | 0xFF00_0000) as int == v as int + 0xFF00_0000
  {
  }

  /** The sign handling on the three boundary patterns. */
  lemma Sample24Examples()
    ensures Sample24(0xFF, 0xFF, 0xFF) == -1
    ensures Sample24(0x80, 0x00, 0x00) == -0x80_0000
    ensures Sample24(0x7F, 0xFF, 0xFF) == 0x7F_FFFF
    ensures Sample24(0x00, 0x00, 0x00) == 0
  {
    Sample24Value(0xFF, 0xFF, 0xFF);
    Sample24Value(0x80, 0x00, 0x00);
    Sample24Value(0x7F, 0xFF, 0xFF);
    Sample24Value(0x00, 0x00, 0x00);
  }

  // ---------------------------------------------------------------------------
  // The two passes over one read

  /** A buffer both loops can read without leaving it: any length that is a
      multiple of 6 (hence of 3), and a read count no larger than the buffer. */
  predicate ReadableRead(len: int, bytesRead: int) {
    len % 6 == 0 && bytesRead <= len
  }

  lemma BufferSizeIsFrameAligned()
    ensures BUFFER_SIZE % 6 == 0 && BUFFER_SIZE % 3 == 0
  {
  }

  /** Every offset the loops read lies inside the buffer: the mono loop reads
      i..i+2 for i = 3k below `bytesRead`, the stereo loop i..i+5 for i = 6k. */
  lemma ReadsInBounds(len: int, bytesRead: int, k: nat)
    requires ReadableRead(len, bytesRead)
    ensures k < Iterations(bytesRead, 3) ==> 3 * k + 2 < len
    ensures k < Iterations(bytesRead, 6) ==> 6 * k + 5 < len
  {
    var m := len / 6;
    assert len == 6 * m;
    if k < Iterations(bytesRead, 3) {
      assert k * 3 < bytesRead;
      assert k < 2 * m;
    }
    if k < Iterations(bytesRead, 6) {
      assert k * 6 < bytesRead;
      assert k < m;
    }
  }

  /** The samples the "assume mono" loop decodes: one per 3-byte group starting
      below `bytesRead`, whatever the channel layout. */
  function MonoSamples(buf: seq<bv8>, bytesRead: int): (xs: seq<int>)
    requires ReadableRead(|buf|, bytesRead)
    ensures |xs| == Iterations(bytesRead, 3)
  {
    seq(Iterations(bytesRead, 3), k requires 0 <= k < Iterations(bytesRead, 3) =>
      ReadsInBounds(|buf|, bytesRead, k);
      Sample24(buf[3 * k], buf[3 * k + 1], buf[3 * k + 2]))
  }

  /** The left samples of the stereo loop: bytes i..i+2 of each frame i = 6k. */
  function LeftSamples(buf: seq<bv8>, bytesRead: int): (xs: seq<int>)
    requires ReadableRead(|buf|, bytesRead)
    ensures |xs| == Iterations(bytesRead, 6)
  {
    seq(Iterations(bytesRead, 6), k requires 0 <= k < Iterations(bytesRead, 6) =>
      ReadsInBounds(|buf|, bytesRead, k);
      Sample24(buf[6 * k], buf[6 * k + 1], buf[6 * k + 2]))
  }

  /** The right samples of the stereo loop: bytes i+3..i+5 of each frame i = 6k. */
  function RightSamples(buf: seq<bv8>, bytesRead: int): (xs: seq<int>)
    requires ReadableRead(|buf|, bytesRead)
    ensures |xs| == Iterations(bytesRead, 6)
  {
    seq(Iterations(bytesRead, 6), k requires 0 <= k < Iterations(bytesRead, 6) =>
      ReadsInBounds(|buf|, bytesRead, k);
      Sample24(buf[6 * k + 3], buf[6 * k + 4], buf[6 * k + 5]))
  }

  /** Group `k` of a read: where its bytes are and what the mono loop decodes
      from them. */
  lemma MonoSampleAt(buf: seq<bv8>, bytesRead: int, k: nat)
    requires ReadableRead(|buf|, bytesRead) && k < Iterations(bytesRead, 3)
    ensures 3 * k + 2 < |buf|
    ensures MonoSamples(buf, bytesRead)[k] == Sample24(buf[3 * k], buf[3 * k + 1], buf[3 * k + 2])
  {
    ReadsInBounds(|buf|, bytesRead, k);
  }

  /** Frame `k` of a read: where its bytes are and what the stereo loop decodes
      from them. */
  lemma StereoFrameAt(buf: seq<bv8>, bytesRead: int, k: nat)
    requires ReadableRead(|buf|, bytesRead) && k < Iterations(bytesRead, 6)
    ensures 6 * k + 5 < |buf|
    ensures LeftSamples(buf, bytesRead)[k] == Sample24(buf[6 * k], buf[6 * k + 1], buf[6 * k + 2])
    ensures RightSamples(buf, bytesRead)[k] == Sample24(buf[6 * k + 3], buf[6 * k + 4], buf[6 * k + 5])
  {
    ReadsInBounds(|buf|, bytesRead, k);
  }

  /** The mono readout interleaves the two channels: its even samples are the
      left ones and its odd samples the right ones, frame by frame. */
  lemma MonoInterleavesChannels(buf: seq<bv8>, bytesRead: int, k: nat)
    requires ReadableRead(|buf|, bytesRead)
    requires bytesRead % 6 == 0 && k < Iterations(bytesRead, 6)
    ensures 2 * k + 1 < |MonoSamples(buf, bytesRead)|
    ensures MonoSamples(buf, bytesRead)[2 * k] == LeftSamples(buf, bytesRead)[k]
    ensures MonoSamples(buf, bytesRead)[2 * k + 1] == RightSamples(buf, bytesRead)[k]
  {
    assert 6 * k < bytesRead;
  }

  /** With a frame-aligned read the loops run exactly as often as the counts the
      means divide by (`bytesRead / 3` and `bytesRead / 6`); with any other
      positive read they run once more than that. */
  lemma MonoIterationsMatchCount(bytesRead: int)
    requires bytesRead > 0
    ensures Iterations(bytesRead, 3) == JavaDiv(bytesRead, 3) <==> bytesRead % 3 == 0
    ensures bytesRead % 3 != 0 ==> Iterations(bytesRead, 3) == JavaDiv(bytesRead, 3) + 1
  {
    var q, r := bytesRead / 3, bytesRead % 3;
    assert bytesRead + 2 == 3 * q + (r + 2);
    assert (bytesRead + 2) / 3 == if r == 0 then q else q + 1;
  }

  lemma StereoIterationsMatchCount(bytesRead: int)
    requires bytesRead > 0
    ensures Iterations(bytesRead, 6) == JavaDiv(bytesRead, 6) <==> bytesRead % 6 == 0
    ensures bytesRead % 6 != 0 ==> Iterations(bytesRead, 6) == JavaDiv(bytesRead, 6) + 1
  {
    var q, r := bytesRead / 6, bytesRead % 6;
    assert bytesRead + 5 == 6 * q + (r + 5);
    assert (bytesRead + 5) / 6 == if r == 0 then q else q + 1;
  }

  /** The exact sum of squares, without any wrap-around. */
  function SumSquares(xs: seq<int>): (r: int)
    ensures r >= 0
  {
    if xs == [] then 0 else SumSquares(xs[..|xs| - 1]) + xs[|xs| - 1] * xs[|xs| - 1]
  }

  /** `sum += x * x` on Java `int`s: the square and the sum both wrap. */
  function AddSquare(sum: int, x: int): int {
    Wrap32(sum + Wrap32(x * x))
  }

  /** One step of `sum += x * x` on Java `int`s keeps the sum equal to the exact
      sum of squares reduced modulo 2^32. */
  lemma AccumulateStep(xs: seq<int>, k: nat, sum: int)
    requires k < |xs| && sum == Wrap32(SumSquares(xs[..k]))
    ensures AddSquare(sum, xs[k]) == Wrap32(SumSquares(xs[..k + 1]))
  {
    assert xs[..k + 1][..k] == xs[..k];
    Wrap32Congruent(SumSquares(xs[..k]), sum);
    Wrap32Add(SumSquares(xs[..k]), xs[k] * xs[k]);
    assert Wrap32(sum) == sum;
  }

  /** One group of the mono loop. */
  lemma MonoStep(buf: seq<bv8>, bytesRead: int, k: nat, monoSum: int)
    requires ReadableRead(|buf|, bytesRead) && 3 * k < bytesRead
    requires monoSum == Wrap32(SumSquares(MonoSamples(buf, bytesRead)[..k]))
    ensures 3 * k + 2 < |buf| && k < Iterations(bytesRead, 3)
    ensures AddSquare(monoSum, Sample24(buf[3 * k], buf[3 * k + 1], buf[3 * k + 2]))
      == Wrap32(SumSquares(MonoSamples(buf, bytesRead)[..k + 1]))
  {
    MonoSampleAt(buf, bytesRead, k);
    AccumulateStep(MonoSamples(buf, bytesRead), k, monoSum);
  }

  /** One frame of the stereo loop, for both channels at once. */
  lemma StereoStep(buf: seq<bv8>, bytesRead: int, k: nat, leftSum: int, rightSum: int)
    requires ReadableRead(|buf|, bytesRead) && 6 * k < bytesRead
    requires leftSum == Wrap32(SumSquares(LeftSamples(buf, bytesRead)[..k]))
    requires rightSum == Wrap32(SumSquares(RightSamples(buf, bytesRead)[..k]))
    ensures 6 * k + 5 < |buf| && k < Iterations(bytesRead, 6)
    ensures AddSquare(leftSum, Sample24(buf[6 * k], buf[6 * k + 1], buf[6 * k + 2]))
      == Wrap32(SumSquares(LeftSamples(buf, bytesRead)[..k + 1]))
    ensures AddSquare(rightSum, Sample24(buf[6 * k + 3], buf[6 * k + 4], buf[6 * k + 5]))
      == Wrap32(SumSquares(RightSamples(buf, bytesRead)[..k + 1]))
  {
    StereoFrameAt(buf, bytesRead, k);
    AccumulateStep(LeftSamples(buf, bytesRead), k, leftSum);
    AccumulateStep(RightSamples(buf, bytesRead), k, rightSum);
  }

  /** The "assume mono" loop: `monoSum` is the sum of the squared 3-byte samples
      below `bytesRead`, in wrapping 32-bit arithmetic. */
  method MonoPass(buffer: array<bv8>, bytesRead: int) returns (monoSum: int)
    requires ReadableRead(buffer.Length, bytesRead)
    ensures monoSum == Wrap32(SumSquares(MonoSamples(buffer[..], bytesRead)))
  {
    ghost var buf := buffer[..];
    ghost var xs := MonoSamples(buf, bytesRead);
    monoSum := 0;
    var i := 0;
    ghost var k: nat := 0;
    while i < bytesRead
      invariant i == 3 * k && k <= |xs|
      invariant monoSum == Wrap32(SumSquares(xs[..k]))
      decreases bytesRead - i
    {
      assert k < |xs|;
      ReadsInBounds(buffer.Length, bytesRead, k);
      assert buffer[i] == buf[3 * k] && buffer[i + 1] == buf[3 * k + 1] && buffer[i + 2] == buf[3 * k + 2];
      MonoStep(buf, bytesRead, k, monoSum);
      var monoChannel := Sample24(buffer[i], buffer[i + 1], buffer[i + 2]);
      monoSum := AddSquare(monoSum, monoChannel);
      i, k := i + 3, k + 1;
    }
    assert xs[..k] == xs;
  }

  /** The "assume stereo" loop: the two sums of the squared left and right
      samples of the frames starting below `bytesRead`, in wrapping 32-bit
      arithmetic. */
  method StereoPass(buffer: array<bv8>, bytesRead: int) returns (leftSum: int, rightSum: int)
    requires ReadableRead(buffer.Length, bytesRead)
    ensures leftSum == Wrap32(SumSquares(LeftSamples(buffer[..], bytesRead)))
    ensures rightSum == Wrap32(SumSquares(RightSamples(buffer[..], bytesRead)))
  {
    ghost var buf := buffer[..];
    ghost var ls := LeftSamples(buf, bytesRead);
    ghost var rs := RightSamples(buf, bytesRead);
    leftSum, rightSum := 0, 0;
    var i := 0;
    ghost var k: nat := 0;
    while i < bytesRead
      invariant i == 6 * k && k <= |ls|
      invariant leftSum == Wrap32(SumSquares(ls[..k]))
      invariant rightSum == Wrap32(SumSquares(rs[..k]))
      decreases bytesRead - i
    {
      assert k < |ls|;
      ReadsInBounds(buffer.Length, bytesRead, k);
      assert buffer[i] == buf[6 * k] && buffer[i + 1] == buf[6 * k + 1] && buffer[i + 2] == buf[6 * k + 2];
      assert buffer[i + 3] == buf[6 * k + 3] && buffer[i + 4] == buf[6 * k + 4] && buffer[i + 5] == buf[6 * k + 5];
      StereoStep(buf, bytesRead, k, leftSum, rightSum);
      var leftChannel := Sample24(buffer[i], buffer[i + 1], buffer[i + 2]);
      leftSum := AddSquare(leftSum, leftChannel);
      var rightChannel := Sample24(buffer[i + 3], buffer[i + 4], buffer[i + 5]);
      rightSum := AddSquare(rightSum, rightChannel);
      i, k := i + 6, k + 1;
    }
    assert ls[..k] == ls;
    assert rs[..k] == rs;
  }

  /** The wrap-around is reachable: a single full-scale sample already squares
      past the `int` range, and its wrapped square is negative. */
  lemma FullScaleSquareWraps()
    ensures Wrap32(Sample24(0x7F, 0xFF, 0xFF) * Sample24(0x7F, 0xFF, 0xFF)) == -0xFF_FFFF
  {
    Sample24Value(0x7F, 0xFF, 0xFF);
  }

  // ---------------------------------------------------------------------------
  // The once-per-second print throttle

  /** The two throttle variables, `lastPrintTime` (milliseconds) and `counter`. */
  datatype Throttle = Throttle(lastPrintTime: int, counter: int)

  /** What the throttle does with a non-empty read at time `now`: when at least
      1000 ms have passed since the last print it prints, moves `lastPrintTime`
      to `now` and counts the print; otherwise nothing changes. */
  function Tick(t: Throttle, now: int): (Throttle, bool) {
    if now - t.lastPrintTime >= 1000 then (Throttle(now, t.counter + 1), true) else (t, false)
  }

  /** The figures one printed line carries: the read size, the print counter
      before it is incremented, the three integer sums and the two sample counts
      the means divide by (the roots and decibel values derived from them are
      floating point and not modelled). */
  datatype Report = Report(bytesRead: int, count: int, monoSum: int, leftSum: int, rightSum: int,
                           monoCount: int, stereoCount: int)

  /** The line printed for a read of `bytesRead` bytes into `buf` while the
      counter is `count`. */
  function ReportOf(buf: seq<bv8>, bytesRead: int, count: int): Report
    requires ReadableRead(|buf|, bytesRead)
  {
    Report(bytesRead, count,
           Wrap32(SumSquares(MonoSamples(buf, bytesRead))),
           Wrap32(SumSquares(LeftSamples(buf, bytesRead))),
           Wrap32(SumSquares(RightSamples(buf, bytesRead))),
           JavaDiv(bytesRead, 3), JavaDiv(bytesRead, 6))
  }

  /** One read of the capture loop: the bytes the line delivers and the clock
      reading taken after processing them. */
  datatype Capture = Capture(data: seq<bv8>, now: int)

  /** Every read of `captures` fits a buffer of `len` bytes. */
  predicate FitIn(captures: seq<Capture>, len: int) {
    forall j :: 0 <= j < |captures| ==> |captures[j].data| <= len
  }

  /** The buffer after the reads of `captures`, starting from `init`: each read
      overwrites a prefix and leaves the rest from before. */
  function BufferAfter(init: seq<bv8>, captures: seq<Capture>): (buf: seq<bv8>)
    requires FitIn(captures, |init|)
    ensures |buf| == |init|
  {
    if captures == [] then init
    else
      var prev := BufferAfter(init, captures[..|captures| - 1]);
      var data := captures[|captures| - 1].data;
      data + prev[|data|..]
  }

  /** The throttle's state after a sequence of reads; empty reads do not
      touch it. */
  function ThrottleAfter(t: Throttle, captures: seq<Capture>): Throttle {
    if captures == [] then t
    else
      var prev := ThrottleAfter(t, captures[..|captures| - 1]);
      var last := captures[|captures| - 1];
      if |last.data| == 0 then prev else Tick(prev, last.now).0
  }

  /** The positions of the reads that printed: the non-empty reads the
      throttle let through, in order. */
  function PrintIndices(t: Throttle, captures: seq<Capture>): (idx: seq<nat>)
    ensures forall k :: 0 <= k < |idx| ==> idx[k] < |captures|
  {
    if captures == [] then []
    else
      var n := |captures| - 1;
      var prev := PrintIndices(t, captures[..n]);
      if |captures[n].data| > 0 && Tick(ThrottleAfter(t, captures[..n]), captures[n].now).1
      then prev + [n] else prev
  }

  /** What one printed line is computed from: the buffer as the read left it,
      the read size, and the counter's value at that moment. */
  datatype Line = Line(buf: seq<bv8>, bytesRead: int, count: int)

  /** The line read `i` of `captures` would print while the counter is `count`. */
  function LineOf(init: seq<bv8>, captures: seq<Capture>, i: nat, count: int): Line
    requires FitIn(captures, |init|) && i < |captures|
  {
    FitInPrefix(captures, |init|, i + 1);
    Line(BufferAfter(init, captures[..i + 1]), |captures[i].data|, count)
  }

  /** The reports computed from `lines`, one by one. */
  function Reports(lines: seq<Line>): (prints: seq<Report>)
    requires forall k :: 0 <= k < |lines| ==> ReadableRead(|lines[k].buf|, lines[k].bytesRead)
  {
    seq(|lines|, k requires 0 <= k < |lines| => ReportOf(lines[k].buf, lines[k].bytesRead, lines[k].count))
  }

  lemma ReportsAppend(lines: seq<Line>, line: Line)
    requires forall k :: 0 <= k < |lines| ==> ReadableRead(|lines[k].buf|, lines[k].bytesRead)
    requires ReadableRead(|line.buf|, line.bytesRead)
    ensures Reports(lines + [line]) == Reports(lines) + [ReportOf(line.buf, line.bytesRead, line.count)]
  {
    assert forall k :: 0 <= k < |lines| ==> (lines + [line])[k] == lines[k];
  }

  lemma FitInPrefix(captures: seq<Capture>, len: int, m: nat)
    requires FitIn(captures, len) && m <= |captures|
    ensures FitIn(captures[..m], len)
  {
    assert forall j :: 0 <= j < m ==> captures[..m][j] == captures[j];
  }

  /** The lines the capture loop prints for a sequence of reads: a non-empty
      read that the throttle lets through prints from the buffer as it left
      it, with the counter's value at that moment. */
  function PrintedLines(t: Throttle, init: seq<bv8>, captures: seq<Capture>): (lines: seq<Line>)
    requires FitIn(captures, |init|)
    ensures forall k :: 0 <= k < |lines| ==> |lines[k].buf| == |init| && 0 < lines[k].bytesRead <= |init|
  {
    if captures == [] then []
    else
      var n := |captures| - 1;
      FitInPrefix(captures, |init|, n);
      var prev := PrintedLines(t, init, captures[..n]);
      var state := ThrottleAfter(t, captures[..n]);
      if |captures[n].data| > 0 && Tick(state, captures[n].now).1 then
        prev + [LineOf(init, captures, n, state.counter)]
      else prev
  }

  /** One more read: an empty one leaves the throttle alone, a non-empty one
      ticks it and is recorded when it prints; the buffer takes its bytes. */
  lemma RunStep(t: Throttle, init: seq<bv8>, captures: seq<Capture>, j: nat)
    requires FitIn(captures, |init|) && j < |captures|
    ensures var prev := ThrottleAfter(t, captures[..j]);
      var cur := ThrottleAfter(t, captures[..j + 1]);
      var c := captures[j];
      (|c.data| == 0 ==> cur == prev) && (|c.data| > 0 ==> cur == Tick(prev, c.now).0)
    ensures FitIn(captures[..j], |init|) && FitIn(captures[..j + 1], |init|)
    ensures BufferAfter(init, captures[..j + 1])
      == captures[j].data + BufferAfter(init, captures[..j])[|captures[j].data|..]
    ensures var state := ThrottleAfter(t, captures[..j]);
      var c := captures[j];
      PrintedLines(t, init, captures[..j + 1]) == PrintedLines(t, init, captures[..j]) +
        if |c.data| > 0 && Tick(state, c.now).1
        then [Line(BufferAfter(init, captures[..j + 1]), |c.data|, state.counter)] else []
  {
    FitInPrefix(captures, |init|, j);
    FitInPrefix(captures, |init|, j + 1);
    assert captures[..j + 1][..j] == captures[..j];
    assert captures[..j + 1][..j + 1] == captures[..j + 1];
  }

  /** One pass of the capture loop, stated on values: read `j` takes the
      buffer from `before` to `after` and the throttle from `s0` to `s1`, and
      prints `printed`; the loop's bookkeeping then holds for one more read. */
  lemma RunAdvance(t0: Throttle, init: seq<bv8>, captures: seq<Capture>, j: nat, prints: seq<Report>,
                   before: seq<bv8>, after: seq<bv8>, s0: Throttle, s1: Throttle, printed: Option<Report>)
    requires FitIn(captures, |init|) && |init| % 6 == 0 && j < |captures|
    requires FitIn(captures[..j], |init|)
    requires before == BufferAfter(init, captures[..j])
    requires s0 == ThrottleAfter(t0, captures[..j])
    requires prints == Reports(PrintedLines(t0, init, captures[..j]))
    requires after == captures[j].data + before[|captures[j].data|..]
    requires |captures[j].data| == 0 ==> printed == None && s1 == s0
    requires |captures[j].data| > 0 ==> (s1, printed.Some?) == Tick(s0, captures[j].now)
    requires printed.Some? ==> printed.value == ReportOf(after, |captures[j].data|, s0.counter)
    ensures FitIn(captures[..j + 1], |init|)
    ensures after == BufferAfter(init, captures[..j + 1])
    ensures s1 == ThrottleAfter(t0, captures[..j + 1])
    ensures (if printed.Some? then prints + [printed.value] else prints)
      == Reports(PrintedLines(t0, init, captures[..j + 1]))
  {
    RunStep(t0, init, captures, j);
    var lines := PrintedLines(t0, init, captures[..j]);
    if printed.Some? {
      ReportsAppend(lines, Line(after, |captures[j].data|, s0.counter));
    } else {
      assert PrintedLines(t0, init, captures[..j + 1]) == lines;
    }
  }

  /** The capture loop's state: the buffer the line reads into and the two
      throttle variables. */
  class LevelMeter {
    const buffer: array<bv8>
    var lastPrintTime: int
    var counter: int

    function State(): Throttle
      reads this
    {
      Throttle(lastPrintTime, counter)
    }

    /** The state right before the loop: a fresh, zero-filled buffer, the start
        time as the last print time, and a zero counter. */
    constructor (startTime: int)
      ensures buffer.Length == BUFFER_SIZE && fresh(buffer)
      ensures buffer[..] == seq(BUFFER_SIZE, _ => 0)
      ensures lastPrintTime == startTime && counter == 0
    {
      buffer := new bv8[BUFFER_SIZE](_ => 0);
      lastPrintTime := startTime;
      counter := 0;
    }

    /** One pass of the loop body after `read` has returned `bytesRead`: an
        empty read does nothing; otherwise both passes run and the throttle
        decides whether a line is printed. */
    method Cycle(bytesRead: int, currentTime: int) returns (printed: Option<Report>)
      requires ReadableRead(buffer.Length, bytesRead)
      modifies this
      ensures bytesRead <= 0 ==> printed == None && State() == old(State())
      ensures bytesRead > 0 ==> (State(), printed.Some?) == Tick(old(State()), currentTime)
      ensures printed.Some? ==> printed.value == ReportOf(buffer[..], bytesRead, old(counter))
    {
      printed := None;
      if bytesRead > 0 {
        var monoSum := MonoPass(buffer, bytesRead);
        var leftSum, rightSum := StereoPass(buffer, bytesRead);
        var stereoCount := bytesRead / 6;
        var monoCount := bytesRead / 3;
        if currentTime - lastPrintTime >= 1000 {
          printed := Some(Report(bytesRead, counter, monoSum, leftSum, rightSum, monoCount, stereoCount));
          lastPrintTime := currentTime;
          counter := counter + 1;
        }
      }
    }

    /** `read(buffer, 0, buffer.length)`: the line overwrites the first
        `|data|` bytes and reports their number; the rest keeps earlier data. */
    method Read(data: seq<bv8>) returns (bytesRead: int)
      requires |data| <= buffer.Length
      modifies buffer
      ensures bytesRead == |data|
      ensures buffer[..] == data + old(buffer[|data|..])
    {
      forall i | 0 <= i < |data| {
        buffer[i] := data[i];
      }
      bytesRead := |data|;
      assert buffer[..] == data + old(buffer[|data|..]) by {
        assert forall i :: 0 <= i < buffer.Length ==> buffer[..][i] == (data + old(buffer[|data|..]))[i];
      }
    }

    /** One iteration of the `while (true)` loop: the read, then the cycle on
        what it delivered. */
    method Process(c: Capture) returns (printed: Option<Report>)
      requires |c.data| <= buffer.Length && buffer.Length % 6 == 0
      modifies this, buffer
      ensures buffer[..] == c.data + old(buffer[..])[|c.data|..]
      ensures |c.data| == 0 ==> printed == None && State() == old(State())
      ensures |c.data| > 0 ==> (State(), printed.Some?) == Tick(old(State()), c.now)
      ensures printed.Some? ==> printed.value == ReportOf(buffer[..], |c.data|, old(counter))
    {
      var bytesRead := Read(c.data);
      ghost var filled := buffer[..];
      printed := Cycle(bytesRead, c.now);
      assert buffer[..] == filled;
    }

    /** The `while (true)` loop, run over a finite sequence of reads: the
        buffer holds what the reads left in it, the throttle ends in the state
        the reads drive it to, and the k-th printed line is the report of the
        k-th read the throttle let through, computed on the buffer as that read
        left it and carrying the counter's k-th value. */
    method Run(captures: seq<Capture>) returns (prints: seq<Report>)
      requires FitIn(captures, buffer.Length) && buffer.Length % 6 == 0
      modifies this, buffer
      ensures buffer[..] == BufferAfter(old(buffer[..]), captures)
      ensures State() == ThrottleAfter(old(State()), captures)
      ensures prints == Reports(PrintedLines(old(State()), old(buffer[..]), captures))
    {
      ghost var init := buffer[..];
      ghost var t0 := State();
      prints := [];
      var j := 0;
      FitInPrefix(captures, |init|, 0);
      assert captures[..0] == [];
      while j < |captures|
        invariant 0 <= j <= |captures| && FitIn(captures[..j], |init|)
        invariant buffer[..] == BufferAfter(init, captures[..j])
        invariant State() == ThrottleAfter(t0, captures[..j])
        invariant prints == Reports(PrintedLines(t0, init, captures[..j]))
      {
        ghost var before, s0 := buffer[..], State();
        var printed := Process(captures[j]);
        RunAdvance(t0, init, captures, j, prints, before, buffer[..], s0, State(), printed);
        if printed.Some? {
          prints := prints + [printed.value];
        }
        j := j + 1;
      }
      assert captures[..j] == captures;
    }
  }

  /** Only non-empty reads print, and the positions come in increasing order. */
  lemma {:induction false} PrintIndicesIncrease(t: Throttle, captures: seq<Capture>)
    ensures forall k :: 0 <= k < |PrintIndices(t, captures)| ==>
      |captures[PrintIndices(t, captures)[k]].data| > 0
    ensures forall i, j :: 0 <= i < j < |PrintIndices(t, captures)| ==>
      PrintIndices(t, captures)[i] < PrintIndices(t, captures)[j]
  {
    if captures != [] {
      var n := |captures| - 1;
      var prefix := captures[..n];
      PrintIndicesIncrease(t, prefix);
      var p := PrintIndices(t, prefix);
      assert forall k :: 0 <= k < |p| ==> captures[p[k]] == prefix[p[k]];
    }
  }

  /** The throttle's bookkeeping over any sequence of reads: the counter grows
      by exactly the number of prints, and the final `lastPrintTime` is the
      time of the last print, or the initial one when nothing printed. */
  lemma {:induction false} ThrottleCounts(t: Throttle, captures: seq<Capture>)
    ensures var s, idx := ThrottleAfter(t, captures), PrintIndices(t, captures);
      s.counter == t.counter + |idx| &&
      s.lastPrintTime == if |idx| == 0 then t.lastPrintTime else captures[idx[|idx| - 1]].now
  {
    if captures != [] {
      var n := |captures| - 1;
      var prefix := captures[..n];
      ThrottleCounts(t, prefix);
      var p := PrintIndices(t, prefix);
      if |p| > 0 {
        assert captures[p[|p| - 1]] == prefix[p[|p| - 1]];
      }
    }
  }

  /** The throttle's promise: every print is at least 1000 ms after the
      previous one, and the first at least 1000 ms after the initial time. */
  lemma {:induction false} ThrottleSpacing(t: Throttle, captures: seq<Capture>)
    ensures var times := PrintIndices(t, captures);
      (|times| > 0 ==> captures[times[0]].now >= t.lastPrintTime + 1000) &&
      (forall k :: 0 < k < |times| ==> captures[times[k]].now >= captures[times[k - 1]].now + 1000)
  {
    if captures != [] {
      var n := |captures| - 1;
      var prefix := captures[..n];
      ThrottleSpacing(t, prefix);
      ThrottleCounts(t, prefix);
      var p := PrintIndices(t, prefix);
      assert forall k :: 0 <= k < |p| ==> captures[p[k]] == prefix[p[k]];
    }
  }

  /** One line is printed per print of the throttle. */
  lemma {:induction false} PrintedLinesCount(t: Throttle, init: seq<bv8>, captures: seq<Capture>)
    requires FitIn(captures, |init|)
    ensures |PrintedLines(t, init, captures)| == |PrintIndices(t, captures)|
  {
    if captures != [] {
      FitInPrefix(captures, |init|, |captures| - 1);
      PrintedLinesCount(t, init, captures[..|captures| - 1]);
    }
  }

  /** The k-th printed line is the report of the k-th read the throttle let
      through, on the buffer as that read left it, with counter value
      `t.counter + k`. */
  lemma {:induction false} PrintedLineAt(t: Throttle, init: seq<bv8>, captures: seq<Capture>, k: nat)
    requires FitIn(captures, |init|) && k < |PrintIndices(t, captures)|
    ensures |PrintedLines(t, init, captures)| == |PrintIndices(t, captures)|
    ensures PrintedLines(t, init, captures)[k]
      == LineOf(init, captures, PrintIndices(t, captures)[k], t.counter + k)
  {
    PrintedLinesCount(t, init, captures);
    var n := |captures| - 1;
    var prefix := captures[..n];
    FitInPrefix(captures, |init|, n);
    PrintedLinesCount(t, init, prefix);
    var p := PrintIndices(t, prefix);
    if k < |p| {
      PrintedLineAt(t, init, prefix, k);
      LineOfPrefix(init, captures, n, p[k], t.counter + k);
    } else {
      ThrottleCounts(t, prefix);
      assert captures[..n + 1] == captures;
    }
  }

  /** A read's line does not depend on the reads after it. */
  lemma LineOfPrefix(init: seq<bv8>, captures: seq<Capture>, m: nat, i: nat, count: int)
    requires FitIn(captures, |init|) && i < m <= |captures|
    ensures FitIn(captures[..m], |init|)
    ensures LineOf(init, captures[..m], i, count) == LineOf(init, captures, i, count)
  {
    FitInPrefix(captures, |init|, m);
    assert captures[..m][..i + 1] == captures[..i + 1];
  }

  /** Which reads print: a non-empty read prints exactly when at least 1000 ms
      have passed since the `lastPrintTime` the reads before it left. */
  lemma {:induction false} PrintedExactlyWhenDue(t: Throttle, captures: seq<Capture>, j: nat)
    requires j < |captures| && |captures[j].data| > 0
    ensures j in PrintIndices(t, captures)
      <==> captures[j].now - ThrottleAfter(t, captures[..j]).lastPrintTime >= 1000
  {
    var n := |captures| - 1;
    var prefix := captures[..n];
    if j < n {
      assert prefix[j] == captures[j] && prefix[..j] == captures[..j];
      PrintedExactlyWhenDue(t, prefix, j);
    } else {
      assert prefix == captures[..j];
    }
  }
}
