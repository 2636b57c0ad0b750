# Frame-reading tools of Samsung_Prism_selective_encryption, in Dafny

This project models the hand-written logic of four programs from the
repository. The libraries they call (FFmpeg demuxing, decoding, colour
conversion and encoding) are outside the model.

- **read_h264.cpp** opens a container and picks its first video stream. It
  sends every packet of that stream to the decoder and drains the decoder
  after each packet. Each decoded frame is numbered from 1 and labelled I, P,
  B or Other. At the end the program prints the total. Every library error
  checked through `check_error` exits the process with status 1.
- **pixel_rgb.c** and **pixel_yuv.c** run the same stream search. They also
  share a send/receive loop, with a different error policy: a send that does
  not return 0 only skips the packet. Frames are numbered from 0. For each
  frame, pixel_rgb.c prints the converted RGB24 picture as (r, g, b) triples.
  pixel_yuv.c prints the Y plane at full size, then the U and V planes at
  half size, each read through its own linesize.
- **compressH264.py** takes the size of the first video stream. It then
  copies the decoder's raw YUV 4:2:0 output to the encoder in chunks of
  `width * height * 3 // 2` bytes, stopping at the first short read.

The decoder is an oracle. Each packet is a `Packet(streamIndex, sendResult,
receives)`: the code `avcodec_send_packet` returns for it, and the answers
(code and picture) to the successive `avcodec_receive_frame` calls after it.
When a packet's answers run out, the decoder answers `AVERROR(EAGAIN)`. The
end of the packet sequence is the point where `av_read_frame` stops
returning packets.

A run is a log of observable events plus how it ended. The events are:
close of the input, send, receive with its code, the per-frame report
(number and printout), the decoding-error message, packet release, and the
total.

Each loop exists twice:
- as a recursive function over the oracle, which is the specification;
- as the imperative method that follows the source loop by loop and is
  proved equal to that function.

The properties are proved about the functions, as lemmas over projections
of the log (sends, releases, receive codes, frame numbers, printouts).

Modules:
- `Media`: shared types, error codes, the log and its projections.
- `StreamSelect`: the stream search.
- `PictureType`: the `switch` on `pict_type`.
- `Sampling`: strided reads of RGB24 and YUV 4:2:0 planes.
- `ReadH264`: read_h264.cpp.
- `PixelDecode`: the loop that both pixel programs share. It is generic in
  the per-frame dump.
- `PixelRgb` and `PixelYuv`: the two pixel programs.
- `CompressH264`: compressH264.py.

## Model

| member | source | states |
|---|---|---|
| StreamSelect.FirstVideoIndex | read_h264.cpp:38-44 | Its contract says the search result is -1 or an index below `nb_streams`. It is -1 exactly when no stream is video; otherwise it is the lowest index whose codec type is video. |
| StreamSelect.FindVideoStream | pixel_rgb.c:40-46 | The `for` loop with `break` returns the first video index, or -1 exactly when there is none. It runs in all three C programs (also read_h264.cpp:38-44 and pixel_yuv.c:57-63). |
| StreamSelect.SelectionIgnoresOtherStreams | read_h264.cpp:39-43 | Streams added after the first video stream do not change which stream is chosen. |
| PictureType.Classify | read_h264.cpp:109-122 | The classification is total. Picture types I, P and B each get their own label, each in both directions. Every other value gets Other. |
| PictureType.SliceTypesLabelled | read_h264.cpp:109-122 | Under `PictTypeOf`, an assumed table of the `pict_type` FFmpeg's H.264 decoder sets per slice kind (library behaviour; the program itself never sees a slice type): over all ten H.264 `slice_type` values (section 7.4.3 of ITU-T H.264), the I, P and B slices get their own labels and the SP and SI slices are reported as Other. |
| ReadH264.CheckError | read_h264.cpp:13-19 | A non-negative code continues. A negative code exits with status 1. |
| ReadH264.ReceiveFrames | read_h264.cpp:91-125 | The inner `while (true)` with its two `break`s produces exactly the log and counter of the drain specification. |
| ReadH264.DecodeLoop | read_h264.cpp:83-129 | The packet loop produces the log, counter and abort flag of the loop specification. |
| ReadH264.ReadH264Video | read_h264.cpp:23-139 | The method produces the log and ending of the run specification. This covers each setup failure, the no-video and unsupported-codec returns, the allocation check, the loop, the total and the close. |
| ReadH264.FirstNegative | read_h264.cpp:92-97 | It gives the position of the first negative receive code, and every earlier code is non-negative. |
| ReadH264.DrainNumbering | read_h264.cpp:91-102 | The inner loop never exits the process. The counter rises by one per non-negative code before the first negative one, and the frames are numbered counter + 1, counter + 2, … |
| ReadH264.DrainReceives | read_h264.cpp:91-98 | The receive codes are the non-negative codes, then the first negative one. So the loop stops exactly at the first negative code, EAGAIN and EOF included. |
| ReadH264.DrainDecodeError | read_h264.cpp:93-97 | "Error during decoding" is printed exactly when the code that stopped the loop is neither EAGAIN nor EOF. |
| ReadH264.DrainOutputs | read_h264.cpp:109-122 | The labels printed are those of the pictures before the first negative code, one each, in order. |
| ReadH264.DrainPackets | read_h264.cpp:91-98 | The inner loop sends and releases nothing, and each of its receive calls belongs to the packet just sent. |
| ReadH264.DrainSuccesses | read_h264.cpp:101 | The counter rises by the number of receive calls that returned a non-negative code. |
| ReadH264.FirstFatal | read_h264.cpp:87-88 | It gives the position of the first video packet whose send fails; no earlier video packet's send fails. |
| ReadH264.LoopAborts | read_h264.cpp:88 | The loop exits the process exactly when some video packet's send fails. |
| ReadH264.LoopUnrefs | read_h264.cpp:128 | Every packet read is released, in order and whatever its stream, up to the first failing send. |
| ReadH264.LoopSends | read_h264.cpp:87-88 | Exactly the packets of the chosen stream are sent, in order, up to and including the first failing one. |
| ReadH264.LoopNumbers | read_h264.cpp:83-102 | The counter never decreases, and frames are numbered consecutively from the counter's start value plus 1. |
| ReadH264.LoopSuccesses | read_h264.cpp:101 | The final counter is the start value plus the number of non-negative receive codes. |
| ReadH264.LoopReceives | read_h264.cpp:87-92 | Every receive call follows a successful send of a packet of the chosen stream. |
| ReadH264.LoopOutputs | read_h264.cpp:109-122 | Each picture handed out before the loop stops gets exactly one label, in order. |
| ReadH264.RunFinished | read_h264.cpp:83-138 | In a completed run, some stream is video and no send failed. Every packet is released, and exactly the video packets are sent. Frames are numbered 1 to N, where N is the number of successful receives. The total N comes after the last packet, and the close comes last, so nothing is received after the loop. |
| ReadH264.RunLabels | read_h264.cpp:102-122 | In a completed run, the printouts are the labels of the decoded pictures, once each and in order. |
| ReadH264.RunSendFailureExits | read_h264.cpp:88 | A failing send of a video packet exits with status 1, after the packets before it were released, and before any total is printed or the input is closed. |
| ReadH264.RunWithoutVideo | read_h264.cpp:46-50 | Without a video stream, the input is closed and nothing else happens. |
| ReadH264.ReorderScenario | read_h264.cpp:86-132 | Two packets, the first yielding no picture and the second an I and a B picture, give exactly the expected log and a total of 2. |
| Sampling.PlaneReadInBounds | pixel_yuv.c:16 | When the plane fits, every read offset `y * linesize + x` is inside the buffer. |
| Sampling.PlaneFitsExact | pixel_yuv.c:14-20 | The fit condition holds exactly when every read of the loop pair is in bounds. |
| Sampling.PlaneConventionalLayoutFits | pixel_yuv.c:14-38 | If the stride is at least the width and the buffer holds (rows − 1) · stride + cols bytes, every read is in bounds. |
| Sampling.PlanePaddingNeverRead | pixel_yuv.c:14-20 | Overwriting a byte that no logical read touches leaves the printout unchanged. |
| Sampling.PlanePaddingBytesNeverRead | pixel_yuv.c:15-16 | Overwriting a padding byte (row offset from the width up to the stride) leaves the printout unchanged. |
| Sampling.PlaneStrideIndependent | pixel_yuv.c:14-20 | A padded plane prints exactly like its tightly packed copy. |
| Sampling.PrintPixelValues | pixel_rgb.c:12-22 | The nested loops, with `x` stepping by 3, print `height` rows of `width` triples, each read at `y * linesize + x`, +1 and +2. |
| Sampling.RgbRowsAt | pixel_rgb.c:13-19 | The printout has `height` rows of `width` triples. Triple k of row y is the bytes at y · linesize + 3k, +1 and +2, and all of them are in bounds. |
| Sampling.RgbConventionalLayoutFits | pixel_rgb.c:14-17 | If linesize ≥ 3 · width and the buffer holds (height − 1) · linesize + 3 · width bytes, every read is in bounds. |
| Sampling.RgbPaddingNeverRead | pixel_rgb.c:14-17 | Overwriting a padding byte at row offsets [3 · width, linesize) leaves the printout unchanged. |
| Sampling.RgbStrideIndependent | pixel_rgb.c:14-17 | The printout equals that of the tightly packed copy, whose linesize is 3 · width. |
| Sampling.Half | pixel_yuv.c:23-24 | `width / 2` truncates toward zero as C's `int` division does: for n ≥ 0, 2h ≤ n < 2h + 2, and for n < 0, n ≤ 2h < n + 2 with h ≤ 0. |
| Sampling.SamplePlane | pixel_yuv.c:14-20 | One loop pair prints the plane's rows of logical bytes, each read through the plane's own linesize. |
| Sampling.PrintYuvValues | pixel_yuv.c:12-39 | It prints the Y rows, then the U rows, then the V rows. |
| Sampling.YuvRowsLayout | pixel_yuv.c:13-38 | There are `height` luma rows of `width` values, value (y, x) being `data[0][y * linesize[0] + x]`. Then come height/2 U rows and height/2 V rows of width/2 values (floor division), each from its own plane and linesize, in this order. |
| Sampling.YuvStrideIndependent | pixel_yuv.c:12-39 | A frame with padded linesizes prints exactly like its tightly packed copy. |
| Sampling.YuvPaddingNeverRead | pixel_yuv.c:14-38 | Overwriting a padding byte of the Y, U or V plane leaves the printout unchanged. |
| PixelDecode.FirstNonZero | pixel_rgb.c:90 | It gives the position of the first receive code that is not 0; every earlier code is 0. |
| PixelDecode.DrainNumbering | pixel_rgb.c:90-97 | The inner loop numbers the frames answered before the first non-zero code from the counter on, and the counter rises by their number. |
| PixelDecode.DrainReceives | pixel_rgb.c:90-97 | The inner loop makes one receive call per 0 answer, plus one more, and the counter rises once per 0. |
| PixelDecode.DrainOutputs | pixel_rgb.c:94-95 | The dumps are those of the pictures before the first non-zero code, in order. |
| PixelDecode.DrainPackets | pixel_rgb.c:90 | The inner loop sends and releases nothing, and its receive calls belong to the packet just sent. |
| PixelDecode.LoopUnrefs | pixel_rgb.c:101 | Every packet read is released, in order and whatever its stream. |
| PixelDecode.LoopSends | pixel_rgb.c:88-89 | Exactly the packets of the chosen stream are sent, whether or not the send succeeds. |
| PixelDecode.LoopNumbering | pixel_rgb.c:85-97 | Nothing in the loop ends the process, and frames are numbered consecutively from the counter's start value. |
| PixelDecode.LoopZeros | pixel_rgb.c:90-97 | The final counter is the start value plus the number of receive calls that returned 0. |
| PixelDecode.LoopReceives | pixel_rgb.c:89-90 | A receive call follows only a send of a chosen-stream packet that returned 0. A packet whose send fails is skipped without any receive. |
| PixelDecode.LoopOutputs | pixel_rgb.c:89-98 | Each picture the decoder hands out is dumped exactly once, in order. |
| PixelDecode.PixelRunFinished | pixel_rgb.c:85-111 | The loop runs to the end of the input and the close comes last. Every packet is released and exactly the chosen-stream packets are sent. Frames are numbered 0 to N − 1, where N is the number of receive calls that returned 0. Each decoded picture is dumped once, in order. |
| PixelDecode.PixelRunSetupFailures | pixel_rgb.c:29-70 | Each failing setup call that the program checks ends the run with its own ending, before any packet is read: a failed open gives an empty log, and a failed stream-info read, a missing video stream, an unsupported codec or a failed codec open each give only the close. Conversely, a run that does not finish stopped at one of these calls. |
| PixelRgb.RgbBufferFits | pixel_rgb.c:80-83 | A buffer of `av_image_get_buffer_size(RGB24, w, h, 1)` bytes with linesize 3 · w holds every read. |
| PixelRgb.ReceiveFrames | pixel_rgb.c:90-98 | The inner loop method equals the drain specification with the RGB dump. |
| PixelRgb.DecodeLoop | pixel_rgb.c:85-102 | The packet loop method equals the loop specification. |
| PixelRgb.ReadVideoFrames | pixel_rgb.c:25-112 | `read_video_frames` equals the run specification with the first video stream. |
| PixelRgb.MainProgram | pixel_rgb.c:114-122 | With fewer than 2 arguments it returns -1 and reads nothing. Otherwise it runs `read_video_frames` and returns 0. |
| PixelRgb.PictureLayout | pixel_rgb.c:12-22 | A converted picture prints `height` rows of `width` triples. Triple x of row y is the bytes at y · 3 · width + 3x, +1 and +2. |
| PixelRgb.RunFinished | pixel_rgb.c:85-111 | A completed run of pixel_rgb.c: the first video stream is used, and the release, send, numbering and dump properties hold, with the RGB printout. |
| PixelYuv.ReceiveFrames | pixel_yuv.c:97-101 | The inner loop method equals the drain specification with the YUV dump. |
| PixelYuv.DecodeLoop | pixel_yuv.c:92-105 | The packet loop method equals the loop specification. |
| PixelYuv.ReadVideoFrames | pixel_yuv.c:42-112 | `read_video_frames` equals the run specification with the first video stream. |
| PixelYuv.MainProgram | pixel_yuv.c:114-122 | With fewer than 2 arguments it returns -1 and reads nothing. Otherwise it returns 0. |
| PixelYuv.RunFinished | pixel_yuv.c:92-111 | A completed run of pixel_yuv.c: the release, send and numbering properties hold, and each decoded frame's three planes are printed once, in order. |
| PixelYuv.OddSizeChroma | pixel_yuv.c:23-38 | A 3 × 3 frame prints 3 luma rows of 3 values and one U row and one V row of 1 value each. |
| CompressH264.NextVideoStream | compressH264.py:10 | It gives the first stream whose codec type is video. It is None (StopIteration) exactly when there is none. |
| CompressH264.SameStreamAsC | compressH264.py:10 | The script picks the same stream as the C programs' search. |
| CompressH264.ExpectedFrameSize | compressH264.py:18 | For non-negative sizes, the frame size is ⌊3 · w · h / 2⌋. |
| CompressH264.Read | compressH264.py:39 | `read(n)` returns the next n bytes, or fewer only at the end of the pipe, or everything left for a negative n. |
| CompressH264.Passthrough | compressH264.py:38-49 | The `while True` loop writes exactly the chunks of the chunking specification. |
| CompressH264.FramesCount | compressH264.py:39-43 | For a positive size it writes ⌊L / size⌋ chunks, each of exactly `size` bytes. The final short read is never written. |
| CompressH264.FramesFlatten | compressH264.py:46-49 | The chunks written, concatenated, are the input's prefix, unchanged and in order. |
| CompressH264.FramesSpec | compressH264.py:38-49 | For an input of L bytes and a positive size, the output is the prefix of ⌊L / size⌋ · size bytes in full chunks, and less than one chunk is left over. |
| CompressH264.NegativeSizeWritesNothing | compressH264.py:39-43 | With a negative size the first read takes the whole pipe, and nothing is written. |
| CompressH264.WholeChunksForwarded | compressH264.py:38-49 | An input made of whole chunks is forwarded completely. |
| CompressH264.CompressScript | compressH264.py:9-49 | The script's outcome is the script specification: StopIteration without video, non-termination for a zero frame size, otherwise the chunks written. |
| CompressH264.ScriptForwardsPrefix | compressH264.py:18-49 | A script that reaches the loop with a positive size writes only whole frames and forwards the input unchanged up to the last whole frame. With a negative size it writes nothing. |
| CompressH264.FrameSizesAgreeWhenEven | compressH264.py:18 | For an even width and height, the formula equals the yuv420p frame size. |
| CompressH264.OddSizeFrameLost | compressH264.py:18 | A 3 × 3 video has 17-byte frames, but the formula gives 13. One decoded frame is forwarded as 13 bytes, which hold no complete frame. |
| CompressH264.WholeFramesForwarded | compressH264.py:18 | With the yuv420p frame size, an input of whole frames is forwarded completely. |
| CompressH264.IntendedScriptForwardsEveryFrame | compressH264.py:18-49 | With the yuv420p frame size, every write of the script is one whole frame and all the decoded frames are forwarded. |
| CompressH264.ScriptsAgreeWhenEven | compressH264.py:18 | For an even width and height, the corrected script equals the script as written. |

## Left out

- Text output: the printed strings, stderr diagnostics and the duration and bitrate printouts (read_h264.cpp:32-35, 62-63). A frame's printout is modelled as a value: its number and label, RGB triples, or rows of plane bytes.
- Library calls: `avformat_*`, `avcodec_*`, `av_read_frame`, `av_strerror`, `avformat_network_init`, allocation and free. Their outcomes are inputs (the `Setup` record and the packet oracle), and freeing is not in the log.
- `sws_scale` (pixel_rgb.c:76-78, 91-92): the RGB oracle's picture is the already converted RGB24 buffer.
- The result of `avcodec_parameters_to_context` is ignored by the pixel programs (pixel_rgb.c:63, pixel_yuv.c:80), and so is an allocation failure. The model ignores them too.
- The decoder is not flushed after the last packet (no program does this). A decoder whose answers for a packet run out answers EAGAIN.
- read_h264.cpp's `main` (142-147): it only passes a fixed file name and returns 0. `ReadH264Video` takes the file's outcomes directly.
- compressH264.py: the `eval` of the frame rate, the `print`s, the two ffmpeg subprocesses, the pipes, the waits and the unused `np.frombuffer` view. The decoder's whole output is an input byte sequence.
- encode_h264.c and compressH264_simpler.py are not part of this model: they hold only library parameter setup and a single ffmpeg call.
- `int` overflow: offsets, counters and sizes are unbounded integers. A C `int` offset `y * linesize + x` that overflows 32 bits is not modelled.
- CompressH264.Passthrough: requires a non-zero size. With size 0 the Python loop never ends, since `read(0)` returns an empty chunk whose length equals the size. The script specification records this as the `Diverges` outcome instead.
- PixelRgb.ReceiveFrames: requires every converted picture to have `av_image_get_buffer_size` bytes (`Converted`). The C code does not check this because `sws_scale` writes into that buffer.
- PixelYuv.ReceiveFrames: requires every decoded frame's planes to cover the reads (`Decodable`). The C code does not check the pixel format, and reads past a plane's end are undefined behaviour, so they have no model.
- No program flushes the decoder after the last packet. pixel_rgb.c and pixel_yuv.c return from `read_video_frames` when the file cannot be opened, when stream information cannot be found, when there is no video stream, when the codec is unsupported or when it cannot be opened (pixel_rgb.c:29-69, pixel_yuv.c:46-86); `main` then returns 0. read_h264.cpp returns, and `main` returns 0, when there is no video stream, the codec is unsupported or an allocation fails (read_h264.cpp:46-79); it exits with status 1 through `check_error` when opening the file, reading stream information, copying the codec parameters or opening the codec fails.

## Findings

| source | as written | input that shows it | evidently intended | confidence | as-written member | corrected member |
|---|---|---|---|---|---|---|
| compressH264.py:18 | `expected_frame_size = width * height * 3 // 2` | A 3 × 3 video: a raw yuv420p frame has 9 + 2 · 2 · 2 = 17 bytes, but the script reads 13-byte chunks. One decoded frame is forwarded as 13 bytes, so the encoder, told `s=3x3`, gets no whole frame. | The yuv420p frame size w · h + 2 · ⌈w/2⌉ · ⌈h/2⌉. It agrees with the formula for even sizes and makes decoded frames reach the encoder whole. | medium, not executed | CompressH264.OddSizeFrameLost | CompressH264.IntendedScriptForwardsEveryFrame |
