# IVF readers of the VP9 and H.265 browser players

This project models, in Dafny, the two IVF container readers of the
repository's browser players and the code that feeds their output to the
platform video decoder.

- **VP9 playback** (`vp9/playback.js`):
  - `parseIvfHeader` validates the 32-byte header and reads it.
  - `parseIvfFrames` walks the 12-byte frame records.
  - `initializeDecoder` turns the parsed frames, in order, into encoded
    chunks. The first chunk is the key chunk, and chunk `i` is stamped
    `i * (1000 / frameRate) * 1000` microseconds. The `EncodedVideoChunk`
    constructor throws on a timestamp that is not finite or is 2^53 or
    more. That ends the feed, and playback does not start.
  - The module-level player state is updated by the decoder's output and
    error callbacks and by `renderLoop`. `renderLoop` draws the oldest
    queued frame once a frame period has passed, and schedules itself again
    while frames remain.
- **H.265 decoding** (`h265/decode_h265_ivf.js`):
  - `decodeH265IvfWithExternalDescription` checks the description file and
    the header. A short file or a wrong magic aborts the call. A header
    length, version or codec tag that deviates only draws a warning.
  - It then walks the frame records from byte 32. Each complete record
    becomes one chunk: a key chunk every 30 records, with a timestamp derived
    from the record's 64-bit frame number and the header's timebase. A
    timestamp the chunk constructor rejects throws out of the call, after
    the chunks before it were submitted.

Modules:

- `Bytes` holds the little-endian reads that `DataView` performs, with
  encoders so that every read has a stated inverse.
- `JsNumber` models JavaScript division, multiplication and `Math.round` on
  non-negative values. Division by zero yields `Infinity` or `NaN`.
- `IvfLayout` holds the record layout shared by both readers. `Spans` is the
  reference walk over the records; both frame loops are proved to produce
  exactly one result per span. A writer (`HeaderBytes`, `RecordBytes`,
  `StreamBytes`) exists only to state round trips.
- `Vp9Ivf` models the VP9 parser and the chunk feed.
- `Vp9Player` holds a `Player` class whose fields are the script's
  module-level variables. The methods that update those variables keep the
  invariant `framesDecoded == framesRendered + |queue|`: the queue holds
  exactly the decoded frames not yet drawn, in decode order.
- `H265Ivf` models the H.265 reader.

The platform is an input to the model:

- Fetching and file reading deliver a byte sequence.
- `VideoDecoder.isConfigSupported`, the existence of the canvas and the
  decoder's `state` are boolean parameters.
- The decoder is a sink. The chunks passed to `decode` are recorded in
  order, and decoded frames arrive through `OnDecoderOutput`.

Three behaviours of the code are worth stating up front:

- The VP9 frame rate is the u32 at byte 16 divided by the u32 at byte 20
  (`vp9/playback.js:68`). A header with 1 at byte 16 and 30 at byte 20
  gives 1/30 fps.
- The VP9 parser starts the frame walk at the header length the file
  declares (`vp9/playback.js:272`). The H.265 reader always starts at
  byte 32, whatever length is declared (`ChunksIgnoreHeaderBytes`).
- Neither header parse rejects a zero width, height or timebase field.
  What a zero timebase field does later depends on the player and the field:
  - VP9, 0 at byte 16 (and a non-zero byte 20): the rate is 0, chunk 0 is
    stamped NaN and the constructor rejects it, so nothing is fed
    (`NothingFedAtZeroRate`).
  - VP9, 0 at byte 20 (and a non-zero byte 16): the rate is Infinity, every
    frame lasts 0 ms, every stamp is 0 and every frame is fed
    (`AllFedAtInfiniteRate`).
  - H.265 as written, 0 at byte 16 (and a non-zero byte 20): every stamp is
    0 and accepted (`TimestampAsWrittenAtZeroDenIsZero`).
  - H.265 as written, 0 at byte 20: every stamp is NaN or Infinity, so the
    first complete record throws (`TimestampAsWrittenAtZeroNumRejects`).
  - H.265 with the corrected timestamp the model's decode loop uses (see
    Findings), the two fields swap roles: a zero at byte 16 rejects the
    first record (`NothingSubmittedAtZeroTimebaseDen`).

## Model

| member | source | states |
|---|---|---|
| Bytes.U16At | vp9/playback.js:22-24 | the little-endian 16-bit read is below 2^16 |
| Bytes.U32At | vp9/playback.js:25-27 | the little-endian 32-bit read is below 2^32 |
| Bytes.U64At | h265/decode_h265_ivf.js:140 | the `getBigUint64` read is below 2^64 |
| Bytes.U32AtBytes | vp9/playback.js:25-27 | the 32-bit read is the sum of its four bytes weighted 1, 2^8, 2^16, 2^24 |
| Bytes.Le32OfU32At | vp9/playback.js:25-27 | encoding a 32-bit read gives back the four bytes read, so the read loses nothing |
| Bytes.U32AtIsLowHalf | vp9/playback.js:93 | reading 32 bits where a 64-bit timestamp starts yields that timestamp modulo 2^32 |
| JsNumber.Div | vp9/playback.js:68 | JavaScript division of non-negative values: finite exactly for a finite dividend and a non-zero or infinite divisor, NaN exactly for NaN operands, 0/0 and Infinity/Infinity, and then quotient times divisor is the dividend; a finite value over Infinity is 0 |
| JsNumber.Mul | vp9/playback.js:174 | JavaScript multiplication: finite exactly for finite operands, with the exact product; NaN exactly for NaN operands or 0 times Infinity |
| JsNumber.Round | h265/decode_h265_ivf.js:145-147 | `Math.round` returns an integer within half a unit of its argument, and passes Infinity and NaN through |
| IvfLayout.Spans | vp9/playback.js:86-111 | every record the walk takes lies inside the buffer |
| IvfLayout.SpansAreRecords | h265/decode_h265_ivf.js:130-156 | the records taken are back to back from the start offset, each with the size its header declares |
| IvfLayout.WalkStopsAtIncompleteRecord | vp9/playback.js:86-101 | the walk stops only where fewer than 12 bytes remain or the declared payload runs past the end |
| IvfLayout.SpansIgnorePrefix | vp9/playback.js:81-86 | the walk reads nothing before its start offset |
| IvfLayout.SpansOfTruncated | vp9/playback.js:98-101 | a buffer cut inside record `k` still yields exactly the first `k` records |
| IvfLayout.SpansOfStream | vp9/playback.js:86-111 | walking written records finds each record, in order, with its payload and 64-bit key |
| Vp9Ivf.FrameRate | vp9/playback.js:68 | numerator over denominator: the exact ratio for a positive denominator; NaN for 0/0 and Infinity for n/0 |
| Vp9Ivf.ParseIvfHeader | vp9/playback.js:34-73 | the parse fails exactly for a buffer under 32 bytes, a signature other than DKIF or a codec other than VP90; a header length other than 32 does not fail and is returned as the header size |
| Vp9Ivf.ParseWrittenHeader | vp9/playback.js:47-72 | parsing a written header returns its width, height, frame rate (u32 at 16 over u32 at 20), frame count and declared length, whatever its reserved bytes 28-31 hold; any codec but VP90 is refused |
| Vp9Ivf.ParseIvfFrames | vp9/playback.js:81-113 | the loop returns one frame per record of the reference walk from the start offset, in order |
| Vp9Ivf.FramesAreRecordPayloads | vp9/playback.js:92-108 | each frame's data is its record's payload, of the declared length, and its timestamp is the record's 64-bit field modulo 2^32 |
| Vp9Ivf.ParseWrittenFrames | vp9/playback.js:86-111 | parsing written records yields one frame per record with its payload and its key modulo 2^32 |
| Vp9Ivf.FrameDurationMs | vp9/playback.js:167 | the frame duration is 1000 / frameRate ms for a positive finite rate |
| JsNumber.FitCountStopsAtFirstRejected | vp9/playback.js:172-176 | the constructor accepts every timestamp before the first one it rejects, and rejects that one |
| JsNumber.FitCountIs | vp9/playback.js:172-176 | the number of chunks made before the first rejected timestamp is unique: every earlier timestamp accepted, that one rejected |
| Vp9Ivf.FeedDecoder | vp9/playback.js:170-179 | given the frame duration computed before the loop, the loop submits `Chunks` in order up to the first timestamp the constructor rejects, and completes exactly when it submitted every frame |
| Vp9Ivf.FedPrefixIsAcceptedPrefix | vp9/playback.js:170-179 | the chunks fed are exactly those before the first rejected timestamp, and the feed completes exactly when no timestamp is rejected |
| Vp9Ivf.NothingFedAtZeroRate | vp9/playback.js:167-176 | at frame rate 0 the first chunk is stamped NaN and rejected, so nothing is fed |
| Vp9Ivf.AllFedAtInfiniteRate | vp9/playback.js:167-176 | at an infinite frame rate every chunk is stamped 0 and every frame is fed |
| Vp9Ivf.AllFedAtPositiveRate | vp9/playback.js:167-176 | at a positive rate, when the last frame's stamp `(n - 1) * 1_000_000 / rate` stays below 2^53 microseconds, every frame is fed |
| Vp9Ivf.ChunksFollowFrames | vp9/playback.js:170-179 | chunk `i` carries frame `i`'s data, is a key chunk exactly when `i == 0`, and for a positive finite rate the timestamps never decrease |
| Vp9Ivf.ChunkTimestampsFollowFrameRate | vp9/playback.js:174 | with a positive rate, chunk `i` is stamped `i * 1_000_000 / rate` microseconds, monotone in `i` |
| Vp9Ivf.ChunkTimestampsAtZeroRate | vp9/playback.js:167-174 | with frame rate 0 the first chunk is stamped NaN and every later chunk +Infinity |
| Vp9Player.Player.constructor | vp9/playback.js:10-19 | the initial state: empty queue, zero counters, frame rate 30, not playing |
| Vp9Player.Player.LoadAndPlay | vp9/playback.js:243-275 | an unparsable header changes nothing; otherwise the video size, canvas size and frame rate come from the header, and the frames parsed from the declared header length are fed, up to the first rejected timestamp, when the decoder is available and configured; playback starts only if every frame was fed |
| Vp9Player.Player.InitializeDecoder | vp9/playback.js:119-183 | without WebCodecs or with a rejected configuration nothing is fed and playback does not start; otherwise the chunks are appended in order up to the first rejected timestamp, and playback starts exactly when every frame was fed |
| Vp9Player.Player.OnDecoderOutput | vp9/playback.js:129-133 | the decoded frame joins the back of the queue and is counted; the queue invariant is kept |
| Vp9Player.Player.OnDecoderError | vp9/playback.js:134-142 | playback stops and the queue invariant is kept |
| Vp9Player.Player.RenderLoop | vp9/playback.js:190-238 | when not playing nothing changes; otherwise the clock starts on the first call, the oldest queued frame is drawn only when due, the loop reschedules exactly while frames remain queued, and playback ends otherwise only once the decoder is configured; a drawn frame whose size differs from the canvas sets the canvas and the video size to it |
| Vp9Player.Player.DrawIfDue | vp9/playback.js:199-221 | a due frame is removed from the front of the queue, counted as rendered, and restarts the clock; when its size differs from the canvas, the canvas and the video size become its size; otherwise nothing changes |
| H265Ivf.ReadHeader | h265/decode_h265_ivf.js:44-51 | the header fields at their fixed offsets, each within its field width |
| H265Ivf.Warnings | h265/decode_h265_ivf.js:63-71 | a warning is reported exactly when the header length is not 32, the version is not 0 or the codec tag is not H265 |
| H265Ivf.ReadWrittenHeader | h265/decode_h265_ivf.js:44-51 | reading a written header gives back every field, whatever its reserved bytes 28-31 hold |
| H265Ivf.DecodeH265Ivf | h265/decode_h265_ivf.js:14-174 | the call aborts before the frame loop exactly for an empty description, a file under 32 bytes, a wrong magic, a missing canvas or a rejected configuration, in that order; otherwise it submits `H265Chunks` from byte 32 up to the first rejected timestamp, throwing there, and counts them when none is rejected |
| H265Ivf.SubmitFrames | h265/decode_h265_ivf.js:128-171 | the loop submits one chunk per record of the walk from byte 32 up to the first timestamp the constructor rejects, stops with `rejected` exactly when one is, and `frameCount` ends as the number submitted |
| H265Ivf.SubmittedPrefixIsAccepted | h265/decode_h265_ivf.js:163-170 | the chunks submitted are exactly those before the first rejected timestamp |
| H265Ivf.ZeroTimebaseDenRejects | h265/decode_h265_ivf.js:145-147 | with the corrected timestamp, a zero u32 at byte 16 makes every timestamp Infinity or NaN, and it is rejected |
| H265Ivf.NothingSubmittedAtZeroTimebaseDen | h265/decode_h265_ivf.js:145-167 | with the corrected timestamp, a zero u32 at byte 16 means nothing is submitted |
| H265Ivf.PresentationTimestampFits | h265/decode_h265_ivf.js:145-167 | with the corrected timestamp and a positive timebase, a presentation time below 2^53 - 1 microseconds gives an accepted timestamp |
| H265Ivf.AllSubmittedWhenTimestampsFit | h265/decode_h265_ivf.js:130-171 | with the corrected timestamp, a positive timebase and every record's presentation time below 2^53 - 1 microseconds, every chunk is submitted |
| H265Ivf.PeriodsToMicroseconds | h265/decode_h265_ivf.js:144 | dividing by the frame rate `den / num` equals `n * num / den * 1_000_000` microseconds |
| H265Ivf.PresentationTimestampIsRounded | h265/decode_h265_ivf.js:143-147 | with a positive timebase, frame `n`'s timestamp is an integer within half a microsecond of `n` periods of `num / den` seconds |
| H265Ivf.TimestampAsWrittenIsInverted | h265/decode_h265_ivf.js:145-147 | for a 30 fps timebase the expression as written puts frame 1 at 30,000,000 µs; the formula in the comment puts it at 33,333 µs |
| H265Ivf.TimestampAsWrittenAtZeroDenIsZero | h265/decode_h265_ivf.js:145-147 | as written, a zero u32 at byte 16 with a non-zero one at byte 20 stamps every record 0, and the constructor accepts it |
| H265Ivf.TimestampAsWrittenAtZeroNumRejects | h265/decode_h265_ivf.js:145-147 | as written, a zero u32 at byte 20 stamps a record NaN exactly when `n * den` is 0 and Infinity otherwise; the constructor rejects either |
| H265Ivf.ChunkDataAsWrittenIsNotPayload | h265/decode_h265_ivf.js:155-166 | the buffer passed as written is the whole file, at least 44 bytes longer than the record's payload, so never that payload |
| H265Ivf.ChunksFollowRecords | h265/decode_h265_ivf.js:139-167 | chunk `i` carries record `i`'s payload of the declared length and its full 64-bit frame number, from which its timestamp is derived |
| H265Ivf.KeyChunksEvery30 | h265/decode_h265_ivf.js:158-161 | chunk `i` is a key chunk exactly when `i` is a multiple of 30 |
| H265Ivf.KeyChunksOfNinetyFive | h265/decode_h265_ivf.js:158-161 | with 95 records the key chunks are exactly 0, 30, 60 and 90 |
| H265Ivf.ChunksIgnoreHeaderBytes | h265/decode_h265_ivf.js:29-37 | frames are always read from byte 32: the header bytes, including the declared length, do not change the chunks |
| H265Ivf.ReadWrittenFrames | h265/decode_h265_ivf.js:130-171 | reading a written file yields one chunk per record, in order, with its payload, frame number, key flag and timestamp |
| H265Ivf.TruncatedFileKeepsEarlierChunks | h265/decode_h265_ivf.js:149-153 | a file cut inside record `k` yields exactly the first `k` chunks of the whole file |

## Left out

- Fetching, file reading, DOM access, status text and console output are
  not modelled. Byte sequences and booleans stand in for them.
- WebCodecs is not modelled. `VideoDecoder.isConfigSupported`, `configure`,
  the decoder's `state`, `flush` and `close` are parameters, or they are
  not modelled. The H.265 decoder's output callback draws and closes each
  frame and keeps no state, so it is not modelled.
- `drawImage`, `frame.close`, `requestAnimationFrame` and
  `cancelAnimationFrame` are not modelled. `animationFrameId` is not a
  field; `RenderLoop` returns whether it asked to be called again.
- The scheduling of callbacks between `await` points is not modelled. The
  model runs each step to completion.
- Vp9Ivf.FeedDecoder: the chunk timestamps are recorded as computed. The
  constructor truncates an accepted timestamp to an integer, and that is
  not modelled. Its `TypeError` on a rejected timestamp is modelled as the
  end of the feed.
- Vp9Player.Player.InitializeDecoder: at frame rate 0 or NaN the first
  chunk already throws. Nothing is fed and `isPlaying` stays false. The
  exception reaches the `catch` of `loadAndPlayVideo` (lines 277-281),
  which only writes status text and re-enables the button, so that part is
  not modelled. At an infinite rate every stamp is 0 and nothing throws.
- JsNumber.Div: JavaScript numbers are modelled as exact rationals.
  Rounding each operation to a 53-bit double is not modelled, so the
  modelled timestamps are the exact values before floating-point error.
- H265Ivf.ChunkAt: `Number(bigint)` of a frame number above 2^53 loses
  precision in the source. The model keeps the exact 64-bit value.
- H265Ivf.ChunkAt: the source passes `frameData.buffer`, the whole file,
  as each chunk's data (line 166). The model carries the record's payload
  slice, as the comment on that line intends. `ChunkDataAsWritten` keeps
  the code as written; see Findings.
- H265Ivf.DecodeH265Ivf: a call that ends in `TimestampRejected` never
  reaches `flush` or `close`; the model has neither call in any outcome.
- H265Ivf.SubmitFrames: the final value of `offset` is not returned,
  because nothing reads it after the loop.
- H265Ivf.DecodeH265Ivf: the description bytes are checked only for being
  empty, as in the source. An exception from `isConfigSupported` or
  `configure` is folded into `ConfigRejected`, since both end the call
  before any frame is read.
- Vp9Player.Player.LoadAndPlay: a failed fetch is not modelled. The
  header parse and the frame walk cannot throw on the bytes they are
  given. The only exception the model has is a rejected chunk timestamp,
  which ends the feed.
- `TextDecoder` and `String.fromCharCode` comparisons of the tags are
  modelled as byte comparisons. They agree for the 4-byte ASCII tags
  compared here.
- `capture-to-file/encode-worker.js` and the encoder test scripts write or
  exercise encoders and are not part of this model. The IVF writer in
  `IvfLayout` only states round trips.

## Findings

| source | as written | input that shows it | evidently intended | confidence | as-written member | corrected member |
|---|---|---|---|---|---|---|
| h265/decode_h265_ivf.js:145-147 | `Math.round((n * timebaseDen / timebaseNum) * 1_000_000)`: frame `n` at `n * den / num` seconds | u32 30 at byte 16 and 1 at byte 20 (logged as approx. 30 fps at line 59), frame number 1: 30,000,000 µs instead of 33,333 µs; also a zero at byte 20 throws at the first record, while a zero at byte 16 stamps every record 0 | `(n / (den / num)) * 1_000_000`, as the comment on line 144 says: `n` periods of `num / den` seconds | high; not executed | H265Ivf.TimestampAsWrittenIsInverted | H265Ivf.PresentationTimestampIsRounded |
| h265/decode_h265_ivf.js:155-166 | `data: frameData.buffer`, where `frameData` is `bytes.subarray(offset, offset + frameSize)` | any file with one complete record: the chunk's data is the whole file, header and record header included | the record's payload, `frameData` itself, as the comment on line 166 says | high; not executed | H265Ivf.ChunkDataAsWrittenIsNotPayload | H265Ivf.ChunksFollowRecords |

The decode loop (`SubmitFrames`, `H265Chunks`) uses the corrected
`PresentationTimestamp` and the payload slice. `TimestampAsWritten` and
`ChunkDataAsWritten` keep the code as written.
