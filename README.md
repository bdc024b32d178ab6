# Audio level meter and dBFS WebSocket server — Dafny model

This repository holds two small Java programs that read a 24-bit, big-endian,
signed, stereo PCM stream from a sound card and turn it into loudness figures.

* `src/main/Levels.java` is a console level meter. Each read of the capture
  line is decoded twice. The first pass treats the buffer as mono 3-byte
  samples. The second treats it as 6-byte stereo frames, left then right. The
  squares of the samples are summed in Java `int` arithmetic. At most once per
  second a line of figures is printed.
* `dbfs/.../AudioWebSocketServer.java` is a WebSocket server. It keeps the set
  of open sessions. Each read is decoded as big-endian 32-bit words, and the
  squares are summed into a `long`. The server broadcasts a dBFS message and
  then a dBSPL message, as small JSON-like texts, to every session.

The model covers the integer and bookkeeping logic around the floating-point
formulas:

* `JavaInt` (java_int.dfy) gives Java's fixed-width semantics. This covers
  signed bytes, sign extension, two's-complement readings of `bv32` patterns,
  `int`/`long` wrap-around, truncating division, and the iteration count of a
  strided `for` loop.
* `Levels` (levels.dfy) covers the meter's 24-bit decode, its two
  accumulation loops as methods over the `byte[]` buffer, and the print
  throttle. The meter's state is a class `LevelMeter` with the buffer,
  `lastPrintTime` and `counter`. Its endless loop is run over a finite
  sequence of reads, each given by the bytes it delivers and the clock
  reading after it.
* `RmsLevel` (rms_level.dfy) covers the server's 32-bit word decode and the
  sum-of-squares loop of `calculateRMSLevel`.
* `Broadcast` (broadcast.dfy) covers the server's session set (class
  `SessionSet`: `onOpen`, `onClose`, `broadcast`). Sending is an oracle
  `send(session, message)` that says whether `sendText` returned normally or
  threw the `IOException` that `broadcast` catches.
* `Publish` (publish.dfy) covers one cycle of the server's capture loop. It
  models the publishing rule and the text of the two messages. The computed
  doubles are a `Reading`, which is either `NaN` or a number with the text
  that Java's string concatenation gives it.

The model follows the code as written where it departs from the intended
design:

* The server decodes 4-byte words from a stream of 3-byte samples.
* Squares are taken in wrapping 32-bit `int`. A full-scale 24-bit sample
  already wraps (`Levels.FullScaleSquareWraps`), and so does a word as small
  as 46341 (`RmsLevel.SquareTermCanBeNegative`).
* For a read count that is not a multiple of the stride, the loops run once
  more than the count the means divide by. That extra pass reads stale bytes
  past `bytesRead`, but never past the buffer.
* A failed send is only logged. The session stays in the set.

## Model

| member | source | states |
|---|---|---|
| JavaInt.SignedByte | dbfs/src/main/java/io/audiohome/dbfs/AudioWebSocketServer.java:128 | A Java byte's value lies in [-128, 128), is negative exactly when bit 7 is set, and agrees with the unsigned byte modulo 256 |
| JavaInt.SignExtend | dbfs/src/main/java/io/audiohome/dbfs/AudioWebSocketServer.java:128 | Widening a byte to `int` keeps its signed value: the bit pattern reads back as `SignedByte(b)` |
| JavaInt.Int32 | src/main/Levels.java:64-67 | The two's-complement reading of a 32-bit pattern is in the `int` range, is negative exactly when bit 31 is set, and is congruent to the unsigned value modulo 2^32 |
| JavaInt.Wrap32 | src/main/Levels.java:68 | An `int` operation's result is in range, congruent to the exact result modulo 2^32, and equal to it whenever that fits |
| JavaInt.Wrap64 | dbfs/src/main/java/io/audiohome/dbfs/AudioWebSocketServer.java:129 | The same for `long`, modulo 2^64 |
| JavaInt.JavaDiv | src/main/Levels.java:90-91 | Java's `/` by a positive divisor is floor division for non-negative operands and truncates toward zero for negative ones |
| JavaInt.Iterations | src/main/Levels.java:63 | `for (i = 0; i < n; i += stride)` reaches iteration j (offset j·stride) exactly when j·stride < n |
| JavaInt.Wrap32Congruent | src/main/Levels.java:68 | Numbers congruent modulo 2^32 wrap to the same `int` |
| JavaInt.Wrap32Add | src/main/Levels.java:68 | `s += t` on `int` accumulates the exact sum modulo 2^32, whatever wrapped before |
| Levels.Sample24 | src/main/Levels.java:64-67 | The mono loop's decode of three bytes: the 24 bits, sign-extended to a Java `int` when bit 23 is set. Its value, range and sign are stated by `Levels.Sample24Value` and `Levels.Sample24Examples` |
| Levels.Sample24Value | src/main/Levels.java:64-67 | The decoded sample is the unsigned 24-bit value, minus 2^24 exactly when bit 7 of the first byte is set; it lies in [-2^23, 2^23) and is negative exactly when that bit is set |
| Levels.Sample24Examples | src/main/Levels.java:65-66 | FF FF FF decodes to -1, 80 00 00 to -8388608, 7F FF FF to 8388607, 00 00 00 to 0 |
| Levels.BufferSizeIsFrameAligned | src/main/Levels.java:51 | The 4092-byte buffer holds a whole number of 3-byte samples and of 6-byte frames |
| Levels.ReadsInBounds | src/main/Levels.java:63-81 | With a buffer that is a multiple of 6 and `bytesRead` no larger, every byte either loop reads lies in the buffer |
| Levels.MonoSampleAt | src/main/Levels.java:63-67 | The three bytes 3k, 3k+1, 3k+2 that mono sample k is decoded from lie in the buffer |
| Levels.StereoFrameAt | src/main/Levels.java:72-84 | Bytes 6k..6k+5, which frame k's left and right samples are decoded from, lie in the buffer |
| Levels.MonoInterleavesChannels | src/main/Levels.java:62-86 | For a frame-aligned read the mono readout alternates the channels: its sample 2k is left k and its sample 2k+1 is right k |
| Levels.MonoIterationsMatchCount | src/main/Levels.java:63-91 | The mono loop runs exactly `bytesRead / 3` (`monoCount`) times if and only if `bytesRead` is a multiple of 3, and otherwise once more |
| Levels.StereoIterationsMatchCount | src/main/Levels.java:72-90 | The stereo loop runs exactly `bytesRead / 6` (`stereoCount`) times if and only if `bytesRead` is a multiple of 6, and otherwise once more |
| Levels.AddSquare | src/main/Levels.java:68 | `sum += x * x` on `int`s, the square and the sum both wrapping. That it keeps the exact sum of squares modulo 2^32 is stated by `Levels.AccumulateStep` |
| Levels.AccumulateStep | src/main/Levels.java:68 | One wrapping `sum += x * x` step keeps the sum equal to the exact sum of squares so far, reduced to `int` |
| Levels.MonoPass | src/main/Levels.java:58-69 | `monoSum` is the `int`-wrapped sum of the squares of every mono sample |
| Levels.StereoPass | src/main/Levels.java:59-86 | `leftSum` and `rightSum` are the `int`-wrapped sums of the squares of every left and every right sample |
| Levels.FullScaleSquareWraps | src/main/Levels.java:68 | One full-scale sample 7F FF FF already squares out of the `int` range; its wrapped square is -16777215 |
| Levels.Tick | src/main/Levels.java:106-138 | The throttle's step at time `now`: print, move `lastPrintTime` to `now` and count the print when 1000 ms have passed, else change nothing. Its effect is stated by `Levels.LevelMeter.Cycle`, and over a run by `Levels.PrintedExactlyWhenDue`, `Levels.ThrottleCounts` and `Levels.ThrottleSpacing` |
| Levels.LevelMeter.constructor | src/main/Levels.java:51-53 | The loop starts with a fresh, zero-filled 4092-byte buffer, the start time as last print time and a zero counter |
| Levels.LevelMeter.Read | src/main/Levels.java:56 | A read overwrites the first `bytesRead` bytes and leaves the rest of the buffer as it was |
| Levels.LevelMeter.Cycle | src/main/Levels.java:57-139 | An empty read changes nothing. Otherwise a line is printed, `lastPrintTime` becomes `currentTime` and `counter` grows by one exactly when 1000 ms have passed; else the state is unchanged. A printed line carries the read size, the counter, the three sums and `bytesRead / 3`, `bytesRead / 6` |
| Levels.LevelMeter.Process | src/main/Levels.java:55-139 | One pass of the loop: the read overwrites the front of the buffer; an empty read changes nothing else; otherwise the throttle takes its step, and a printed line is the report of the buffer just read with the counter before the increment |
| Levels.LevelMeter.Run | src/main/Levels.java:55-141 | Over a sequence of reads the buffer ends as the reads leave it and the throttle state ends where the reads drive it. The printed lines are exactly the reports of `PrintedLines`: one per read the throttle lets through, computed on the buffer as that read left it, with that read's size and the counter's value at that moment |
| Levels.PrintedLinesCount | src/main/Levels.java:106-138 | One line is printed per print of the throttle |
| Levels.PrintedLineAt | src/main/Levels.java:56-138 | The k-th printed line comes from the k-th read that printed: the buffer as that read left it, its `bytesRead`, and the counter value initial + k |
| Levels.PrintIndicesIncrease | src/main/Levels.java:57-106 | Only non-empty reads print, and the reads that print come in read order |
| Levels.PrintedExactlyWhenDue | src/main/Levels.java:57-106 | A non-empty read prints if and only if its time is at least 1000 ms after the `lastPrintTime` the reads before it left |
| Levels.ThrottleCounts | src/main/Levels.java:137-138 | Over any sequence of reads the counter grows by exactly the number of prints, and the final `lastPrintTime` is the time of the last print, or unchanged if nothing printed |
| Levels.ThrottleSpacing | src/main/Levels.java:105-138 | Over any sequence of reads the prints are at least 1000 ms apart, and the first is at least 1000 ms after the initial `lastPrintTime` |
| RmsLevel.UnmaskedFirstByte | dbfs/src/main/java/io/audiohome/dbfs/AudioWebSocketServer.java:128 | Shifting the unmasked first byte gives the same word as masking it with 0xFF first |
| RmsLevel.Word | dbfs/src/main/java/io/audiohome/dbfs/AudioWebSocketServer.java:128 | The server's decode of four big-endian bytes to a Java `int`, the first byte unmasked. Its value is stated by `RmsLevel.WordValue` and `RmsLevel.UnmaskedFirstByte` |
| RmsLevel.WordValue | dbfs/src/main/java/io/audiohome/dbfs/AudioWebSocketServer.java:128 | The decoded word is the two's-complement value of the four big-endian bytes, negative exactly when bit 7 of the first byte is set |
| RmsLevel.BufferSizeIsWordAligned | dbfs/src/main/java/io/audiohome/dbfs/AudioWebSocketServer.java:100 | The 4092-byte buffer holds a whole number of 4-byte words |
| RmsLevel.ReadsInBounds | dbfs/src/main/java/io/audiohome/dbfs/AudioWebSocketServer.java:127-128 | With a buffer that is a multiple of 4 and `bytesRead` no larger, bytes i..i+3 of every iteration lie in the buffer |
| RmsLevel.IterationsVersusSampleCount | dbfs/src/main/java/io/audiohome/dbfs/AudioWebSocketServer.java:125-127 | The loop runs ceil(bytesRead/4) times and `sampleCount` is floor(bytesRead/4); they agree if and only if `bytesRead` is a multiple of 4, and otherwise differ by one |
| RmsLevel.IntSquare | dbfs/src/main/java/io/audiohome/dbfs/AudioWebSocketServer.java:129 | Each term `sample * sample` lies in the `int` range and is congruent to the true square modulo 2^32 |
| RmsLevel.SumIntSquaresBounds | dbfs/src/main/java/io/audiohome/dbfs/AudioWebSocketServer.java:129 | n terms sum to between n·(-2^31) and n·(2^31-1) |
| RmsLevel.SquareSumFitsLong | dbfs/src/main/java/io/audiohome/dbfs/AudioWebSocketServer.java:124-129 | With at most 4092 bytes the `long` sum of the terms never wraps |
| RmsLevel.SquareTermCanBeNegative | dbfs/src/main/java/io/audiohome/dbfs/AudioWebSocketServer.java:129 | The word 00 00 B5 05 is 46341, and its `int` square is negative |
| RmsLevel.AccumulateStep | dbfs/src/main/java/io/audiohome/dbfs/AudioWebSocketServer.java:129 | One `sum += sample * sample` step on the `long` sum adds exactly the wrapped term |
| RmsLevel.SumOfSquares | dbfs/src/main/java/io/audiohome/dbfs/AudioWebSocketServer.java:123-130 | `sum` is the exact sum of the `int`-wrapped squares of every decoded word, and `sampleCount` is `bytesRead / 4` |
| Broadcast.RemoveFirst | dbfs/src/main/java/io/audiohome/dbfs/AudioWebSocketServer.java:27 | Removing an absent session changes nothing. Removing a present one shortens the list by one and keeps only old members. On a duplicate-free list the result stays duplicate-free and holds exactly the old members except that session |
| Broadcast.Fanout | dbfs/src/main/java/io/audiohome/dbfs/AudioWebSocketServer.java:38-44 | The attempts of one `broadcast`: one `sendText` per session in iteration order, each with the outcome the transport gives; it has one attempt per session, and `Broadcast.OneAttemptPerMember` states that they go to exactly the members, in order |
| Broadcast.OneAttemptPerMember | dbfs/src/main/java/io/audiohome/dbfs/AudioWebSocketServer.java:36-45 | Whatever the sends answer, the attempts go to the sessions in the set's order, each member exactly once and no one else |
| Broadcast.SessionSet.constructor | dbfs/src/main/java/io/audiohome/dbfs/AudioWebSocketServer.java:16 | The set starts empty |
| Broadcast.SessionSet.OnOpen | dbfs/src/main/java/io/audiohome/dbfs/AudioWebSocketServer.java:19-22 | The session is a member afterwards. An already-present session changes nothing; a new one is appended, and the others are untouched. The set stays duplicate-free |
| Broadcast.SessionSet.OnClose | dbfs/src/main/java/io/audiohome/dbfs/AudioWebSocketServer.java:25-28 | The session is absent afterwards and exactly the other members remain. Nothing changes if it was absent. The set stays duplicate-free |
| Broadcast.SessionSet.Broadcast | dbfs/src/main/java/io/audiohome/dbfs/AudioWebSocketServer.java:36-45 | The attempts are one send per session in order, each with the transport's outcome. A failed send neither stops the loop nor changes the set |
| Publish.Message | dbfs/src/main/java/io/audiohome/dbfs/AudioWebSocketServer.java:108-114 | The text `{"name": "<name>", "value": <value>}` both broadcasts build. That it reads back as its name and value, and that nothing else does, is stated by `Publish.MessageRoundTrip` and `Publish.ParsedIsMessage` |
| Publish.MessageRoundTrip | dbfs/src/main/java/io/audiohome/dbfs/AudioWebSocketServer.java:108-114 | A message `{"name": "<name>", "value": <value>}` whose name has no quote reads back as that name and value |
| Publish.ParsedIsMessage | dbfs/src/main/java/io/audiohome/dbfs/AudioWebSocketServer.java:108-114 | Every text that reads back as a name and a value is exactly the message built from them |
| Publish.CycleMessages | dbfs/src/main/java/io/audiohome/dbfs/AudioWebSocketServer.java:103-115 | The messages one pass of the loop broadcasts, in order. What they are in each case is stated by `Publish.PublishRule` |
| Publish.PublishRule | dbfs/src/main/java/io/audiohome/dbfs/AudioWebSocketServer.java:103-115 | A cycle publishes nothing if and only if the read is empty or dBFS is NaN. It publishes two messages if and only if both values are numbers, and never more. The first message carries dBFS and its value, the second dBSPL and its value |
| Publish.CaptureCycle | dbfs/src/main/java/io/audiohome/dbfs/AudioWebSocketServer.java:101-116 | One pass of the loop performs exactly the broadcasts the publishing rule selects, in order, to the current sessions. The values are computed from the sum of squares and the sample count |
| Publish.CycleOrder | dbfs/src/main/java/io/audiohome/dbfs/AudioWebSocketServer.java:104-115 | In a cycle that publishes both values, session k's dBFS attempt comes at position k, before all the dBSPL attempts; its dBSPL attempt comes at position n+k |

## Left out

- Mixer and line discovery (`getTargetLineByNameAndFormat`, `getMicrophoneByName`) and `TargetDataLine.open`/`start` are foreign `javax.sound.sampled` calls. `read` is modelled by the bytes it delivers: `LevelMeter.Read` for the meter, and the buffer contents plus `bytesRead` for the server.
- The Tyrus WebSocket server, `main`, `System.in.read()` and the capture thread are process lifecycle and I/O.
- `onError` only logs.
- Broadcast.SessionSet.Broadcast: only an `IOException` from `sendText` is modelled, as a failed send (the oracle's `false`) that is logged and skipped. In the source an unchecked exception from `getBasicRemote()` or `sendText` is not caught by `broadcast` (AudioWebSocketServer.java:39-43). It skips the remaining sessions and passes the capture loop's `try`, which catches only `LineUnavailableException` (lines 89 and 118), so it ends the capture thread. The model has no such outcome.
- Publish.CaptureCycle: `dbfsOf` and `dbsplOf` are independent functions, so the model allows dBFS to be a number while dBSPL is NaN. In the source both are `log10` of the same RMS value (AudioWebSocketServer.java:137 and 146), and adding 94 to a non-NaN value never gives NaN. So dBSPL is NaN exactly when dBFS is, the `continue` at line 111 never runs, and only the zero- and two-message outcomes of `CycleMessages` occur. The model over-approximates this, since floating point is not modelled.
- `CopyOnWriteArraySet` and the capture thread run concurrently. The model is sequential, and the set is an insertion-ordered, duplicate-free sequence.
- All floating-point math is left out: `Math.sqrt`, `Math.log10`, `Math.pow`, the means, the dBFS and dBSPL formulas with their differing denominators (2^23-1 in the meter, 2^23 in the server), and `double` to string conversion. The model's `Report` carries the integer figures these are computed from; the line Levels.java:107-136 prints shows `bytesRead` and `counter`, and in place of the sums only the doubles derived from them. The server's values are given functions of the sum and the sample count that return `NaN` or the value's text.
- `System.out.printf`, `String.format`, logging and `printStackTrace` are console output.
- Levels.LevelMeter.Run: the `while (true)` loop never ends; the model runs it over a finite sequence of reads. Each read is given by the bytes `read` delivers and by the `System.currentTimeMillis()` reading taken after it, so blocking and the clock are inputs.
- Levels.LevelMeter.Cycle: `lastPrintTime`, `currentTime` and `counter` are Java `long`s but are modelled as unbounded integers, since a millisecond clock and a print counter cannot reach 2^63.
- The server's `while (true)` loop is modelled one pass at a time (`Publish.CaptureCycle`). There is no method that runs it over a sequence of reads. The meter's loop does have one (`Levels.LevelMeter.Run`).
- RmsLevel.SumOfSquares: requires a buffer of at most 4092 bytes, the size the server allocates. This keeps the `long` sum exact, and `SquareSumFitsLong` shows it cannot wrap.

