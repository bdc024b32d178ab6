/** The integer part of `calculateRMSLevel` in the WebSocket server
    (AudioWebSocketServer.java): the buffer is read as big-endian 32-bit words,
    although the line delivers 24-bit stereo, and the squares of the words are
    computed in Java `int` before they are added to a `long` sum. The square
    root, the division by the sample count and the decibel formulas are floating
    point and are not modelled. */
module RmsLevel {
  import opened JavaInt

  /** Size of the capture buffer (1023 words of 4 bytes). */
  const BUFFER_SIZE: nat := 4092

  /** The expression `(buffer[i] << 24) | ((buffer[i+1] & 0xFF) << 16) |
      ((buffer[i+2] & 0xFF) << 8) | (buffer[i+3] & 0xFF)`: the first byte is not
      masked, so it enters sign-extended to `int` before the shift. */
  function Word32(b0: bv8, b1: bv8, b2: bv8, b3: bv8): bv32 {
    (SignExtend(b0) << 24) | ((b1 as bv32) << 16) | ((b2 as bv32) << 8) | (b3 as bv32)
  }

  /** The sample a word decodes to, as a Java `int`. */
  function Word(b0: bv8, b1: bv8, b2: bv8, b3: bv8): int {
    Int32(Word32(b0, b1, b2, b3))
  }

  /** The unsigned value of four big-endian bytes. */
  function Unsigned32(b0: bv8, b1: bv8, b2: bv8, b3: bv8): int {
    b0 as int * 0x100_0000 + b1 as int * 0x1_0000 + b2 as int * 0x100 + b3 as int
  }

  /** The word built from `buffer[i] & 0xFF` instead. */
  function MaskedWord32(b0: bv8, b1: bv8, b2: bv8, b3: bv8): bv32 {
    ((b0 as bv32) << 24) | ((b1 as bv32) << 16) | ((b2 as bv32) << 8) | (b3 as bv32)
  }

  /** Leaving the first byte unmasked costs nothing: the copies of its sign bit
      are shifted out. */
  lemma UnmaskedFirstByte(b0: bv8, b1: bv8, b2: bv8, b3: bv8)
    ensures Word32(b0, b1, b2, b3) == MaskedWord32(b0, b1, b2, b3)
  {
    ShiftedSignIsLost(b0);
  }

  /** The decoded word is the two's-complement reading of the four big-endian
      bytes: negative exactly when bit 7 of the first byte is set. */
  lemma WordValue(b0: bv8, b1: bv8, b2: bv8, b3: bv8)
    ensures Word(b0, b1, b2, b3) == Unsigned32(b0, b1, b2, b3) - (if b0 >= 0x80 then TWO_32 else 0)
    ensures Word(b0, b1, b2, b3) < 0 <==> b0 >= 0x80
  {
    var w := MaskedWord32(b0, b1, b2, b3);
    UnmaskedFirstByte(b0, b1, b2, b3);
    Assemble32(b0, b1, b2, b3);
    TopByte(b0, b1, b2, b3);
    BvBounds(w);
    assert Word(b0, b1, b2, b3) == Int32(w);
    assert w as int == Unsigned32(b0, b1, b2, b3);
    assert w >= 0x8000_0000 <==> b0 >= 0x80;
  }

  lemma ShiftedSignIsLost(b: bv8)
    ensures SignExtend(b) << 24 == (b as bv32) << 24
  {
  }

  lemma Assemble32(b0: bv8, b1: bv8, b2: bv8, b3: bv8)
    ensures MaskedWord32(b0, b1, b2, b3) as int == Unsigned32(b0, b1, b2, b3)
  {
    var w := ((b0 as bv32) << 24) | ((b1 as bv32) << 16) | ((b2 as bv32) << 8) | (b3 as bv32);
    assert w as int == b0 as int * 0x100_0000 + b1 as int * 0x1_0000 + b2 as int * 0x100 + b3 as int;
  }

  lemma TopByte(b0: bv8, b1: bv8, b2: bv8, b3: bv8)
    ensures MaskedWord32(b0, b1, b2, b3) >= 0x8000_0000 <==> b0 >= 0x80
  {
  }

  /** The buffer the loop can read: a multiple of 4 long, and a read count no
      larger than the buffer. */
  predicate ReadableRead(len: int, bytesRead: int) {
    len % 4 == 0 && bytesRead <= len
  }

  lemma BufferSizeIsWordAligned()
    ensures BUFFER_SIZE % 4 == 0
  {
  }

  /** The loop reads bytes i..i+3 for i = 4k below `bytesRead`; all lie in the
      buffer. */
  lemma ReadsInBounds(len: int, bytesRead: int, k: nat)
    requires ReadableRead(len, bytesRead) && k < Iterations(bytesRead, 4)
    ensures 4 * k + 3 < len
  {
    var m := len / 4;
    assert len == 4 * m;
    assert k * 4 < bytesRead;
    assert k < m;
  }

  /** The words the loop decodes: one per 4-byte group starting below
      `bytesRead`; a trailing partial group is completed from stale bytes. */
  function Words(buf: seq<bv8>, bytesRead: int): (ws: seq<int>)
    requires ReadableRead(|buf|, bytesRead)
    ensures |ws| == Iterations(bytesRead, 4)
  {
    seq(Iterations(bytesRead, 4), k requires 0 <= k < Iterations(bytesRead, 4) =>
      ReadsInBounds(|buf|, bytesRead, k);
      Word(buf[4 * k], buf[4 * k + 1], buf[4 * k + 2], buf[4 * k + 3]))
  }

  /** `sampleCount = bytesRead / 4`. */
  function SampleCount(bytesRead: int): int {
    JavaDiv(bytesRead, 4)
  }

  /** The loop runs ceil(bytesRead/4) times, `sampleCount` is floor(bytesRead/4):
      they agree exactly when `bytesRead` is a multiple of 4, and otherwise the
      loop runs once more. */
  lemma IterationsVersusSampleCount(bytesRead: int)
    requires bytesRead > 0
    ensures Iterations(bytesRead, 4) == SampleCount(bytesRead) <==> bytesRead % 4 == 0
    ensures bytesRead % 4 != 0 ==> Iterations(bytesRead, 4) == SampleCount(bytesRead) + 1
  {
    var q, r := bytesRead / 4, bytesRead % 4;
    assert bytesRead + 3 == 4 * q + (r + 3);
    assert (bytesRead + 3) / 4 == if r == 0 then q else q + 1;
  }

  /** `sample * sample` in Java `int`: the square reduced modulo 2^32. */
  function IntSquare(x: int): (r: int)
    ensures InIntRange(r)
    ensures (x * x - r) % TWO_32 == 0
  {
    Wrap32(x * x)
  }

  /** The exact sum of the wrapped squares (the `long` sum never wraps, see
      `SquareSumFitsLong`). */
  function SumIntSquares(ws: seq<int>): int {
    if ws == [] then 0 else SumIntSquares(ws[..|ws| - 1]) + IntSquare(ws[|ws| - 1])
  }

  /** Every term lies in the `int` range, so n terms stay within n times it. */
  lemma {:induction false} SumIntSquaresBounds(ws: seq<int>)
    ensures -0x8000_0000 * |ws| <= SumIntSquares(ws) <= 0x7FFF_FFFF * |ws|
  {
    if ws != [] {
      SumIntSquaresBounds(ws[..|ws| - 1]);
    }
  }

  /** A buffer of at most 4092 bytes yields at most 1023 terms, so the `long`
      accumulator cannot wrap. */
  lemma SquareSumFitsLong(buf: seq<bv8>, bytesRead: int)
    requires ReadableRead(|buf|, bytesRead) && |buf| <= BUFFER_SIZE
    ensures InLongRange(SumIntSquares(Words(buf, bytesRead)))
  {
    var ws := Words(buf, bytesRead);
    if |ws| > 0 {
      ReadsInBounds(|buf|, bytesRead, |ws| - 1);
    }
    assert |ws| <= 1023;
    SumIntSquaresBounds(ws);
  }

  /** The wrap of `sample * sample` is reachable: the word 00 00 B5 05 (46341)
      has a square just above the `int` maximum, so its term is negative. */
  lemma SquareTermCanBeNegative()
    ensures Word(0x00, 0x00, 0xB5, 0x05) == 46341
    ensures IntSquare(46341) == 46341 * 46341 - TWO_32 < 0
  {
    WordValue(0x00, 0x00, 0xB5, 0x05);
  }

  /** One step of `sum += sample * sample` with a `long` sum. */
  lemma AccumulateStep(ws: seq<int>, k: nat, sum: int)
    requires k < |ws| <= 1023 && sum == SumIntSquares(ws[..k])
    ensures Wrap64(sum + IntSquare(ws[k])) == SumIntSquares(ws[..k + 1])
  {
    assert ws[..k + 1][..k] == ws[..k];
    SumIntSquaresBounds(ws[..k + 1]);
  }

  /** The sum and count `calculateRMSLevel` feeds into its floating-point
      formula: the sum of the `int`-wrapped squares of the decoded words, and
      `bytesRead / 4`. */
  method SumOfSquares(buffer: array<bv8>, bytesRead: int) returns (sum: int, sampleCount: int)
    requires ReadableRead(buffer.Length, bytesRead) && buffer.Length <= BUFFER_SIZE
    ensures sum == SumIntSquares(Words(buffer[..], bytesRead))
    ensures sampleCount == SampleCount(bytesRead)
  {
    ghost var buf := buffer[..];
    ghost var ws := Words(buf, bytesRead);
    sum := 0;
    sampleCount := if bytesRead >= 0 then bytesRead / 4 else -((-bytesRead) / 4);
    var i := 0;
    ghost var k: nat := 0;
    while i < bytesRead
      invariant i == 4 * k && k <= |ws|
      invariant sum == SumIntSquares(ws[..k])
      decreases bytesRead - i
    {
      WordStep(buf, bytesRead, k, sum);
      assert buffer[i] == buf[4 * k] && buffer[i + 1] == buf[4 * k + 1];
      assert buffer[i + 2] == buf[4 * k + 2] && buffer[i + 3] == buf[4 * k + 3];
      var sample := Word(buffer[i], buffer[i + 1], buffer[i + 2], buffer[i + 3]);
      sum := Wrap64(sum + IntSquare(sample));
      i, k := i + 4, k + 1;
    }
    assert ws[..k] == ws;
  }

  lemma WordStep(buf: seq<bv8>, bytesRead: int, k: nat, sum: int)
    requires ReadableRead(|buf|, bytesRead) && 4 * k < bytesRead && |buf| <= BUFFER_SIZE
    requires sum == SumIntSquares(Words(buf, bytesRead)[..k])
    ensures 4 * k + 3 < |buf| && k < Iterations(bytesRead, 4)
    ensures Wrap64(sum + IntSquare(Word(buf[4 * k], buf[4 * k + 1], buf[4 * k + 2], buf[4 * k + 3])))
      == SumIntSquares(Words(buf, bytesRead)[..k + 1])
  {
    ReadsInBounds(|buf|, bytesRead, k);
    var ws := Words(buf, bytesRead);
    ReadsInBounds(|buf|, bytesRead, |ws| - 1);
    AccumulateStep(ws, k, sum);
  }
}
