/** compressH264.py: probe the input, take the first video stream's size,
    and copy raw YUV 4:2:0 frames from a decoding ffmpeg process to an
    encoding one, one fixed-size chunk at a time.

    The two ffmpeg processes are not modelled: `pipe` is everything the
    decoding process writes to its standard output, and the chunks written
    to the encoding process's standard input are the result. */
module CompressH264 {
  import opened Media
  import opened StreamSelect
  import opened Sampling

  /** One entry of `probe['streams']`: its `codec_type` and, for video, its
      `width` and `height`. */
  datatype ProbedStream = ProbedStream(codecType: MediaType, width: int, height: int)

  /** `next(stream for stream in probe['streams'] if stream['codec_type'] == 'video')`:
      `None` stands for the `StopIteration` raised when no stream is video. */
  function NextVideoStream(streams: seq<ProbedStream>): (r: Option<ProbedStream>)
    ensures r.None? <==> forall j :: 0 <= j < |streams| ==> streams[j].codecType != Video
    ensures r.Some? ==> exists j :: 0 <= j < |streams| && streams[j] == r.value &&
                          streams[j].codecType == Video &&
                          forall m :: 0 <= m < j ==> streams[m].codecType != Video
    decreases |streams|
  {
    if streams == [] then None
    else if streams[0].codecType == Video then Some(streams[0])
    else
      var r := NextVideoStream(streams[1..]);
      assert r.Some? ==> exists j :: 0 <= j < |streams| - 1 && streams[1..][j] == r.value &&
                          streams[1..][j].codecType == Video &&
                          forall m :: 0 <= m < j ==> streams[1..][m].codecType != Video;
      r
  }

  function TypesOf(streams: seq<ProbedStream>): (types: seq<MediaType>)
    ensures |types| == |streams|
    ensures forall j :: 0 <= j < |streams| ==> types[j] == streams[j].codecType
  {
    seq(|streams|, j requires 0 <= j < |streams| => streams[j].codecType)
  }

  /** The script and the C programs pick the same stream. */
  lemma {:induction false} SameStreamAsC(streams: seq<ProbedStream>)
    ensures var v := FirstVideoIndex(TypesOf(streams));
      && (NextVideoStream(streams).None? <==> v == -1)
      && (v >= 0 ==> NextVideoStream(streams) == Some(streams[v]))
  {
    var v := FirstVideoIndex(TypesOf(streams));
    if v >= 0 {
      var r := NextVideoStream(streams);
      var j :| 0 <= j < |streams| && streams[j] == r.value && streams[j].codecType == Video &&
               forall m :: 0 <= m < j ==> streams[m].codecType != Video;
      assert TypesOf(streams)[j] == Video;
      assert j == v;
    }
  }

  /** `width * height * 3 // 2`: Python's floor division, which for the
      divisor 2 is Dafny's Euclidean division. */
  function ExpectedFrameSize(width: int, height: int): (size: int)
    ensures width >= 0 && height >= 0 ==> 0 <= 2 * size <= 3 * width * height < 2 * size + 2
  {
    width * height * 3 / 2
  }

  // ---------------------------------------------------------------------
  // The read / write loop

  /** `process_in.stdout.read(n)` with `pos` bytes already read: up to `n`
      bytes, fewer only at the end of the pipe; a negative `n` reads
      everything that is left. */
  function Read(pipe: seq<byte>, pos: nat, n: int): (chunk: seq<byte>)
    requires pos <= |pipe|
    ensures n < 0 ==> chunk == pipe[pos..]
    ensures n >= 0 ==> |chunk| == (if pos + n <= |pipe| then n else |pipe| - pos)
    ensures chunk == pipe[pos..pos + |chunk|]
  {
    if n < 0 || pos + n > |pipe| then pipe[pos..] else pipe[pos..pos + n]
  }

  /** The chunks the loop writes: full chunks of `size` bytes from the front
      of `pipe`, up to the first short read. */
  function Frames(pipe: seq<byte>, size: int): seq<seq<byte>>
    requires size != 0
    decreases |pipe|
  {
    if size < 0 || |pipe| < size then [] else [pipe[..size]] + Frames(pipe[size..], size)
  }

  function Flatten(chunks: seq<seq<byte>>): seq<byte>
  {
    if chunks == [] then [] else chunks[0] + Flatten(chunks[1..])
  }

  /** One full read from position `pos` is the next chunk written. */
  lemma {:induction false} FramesStep(pipe: seq<byte>, pos: nat, size: int)
    requires size > 0 && pos + size <= |pipe|
    ensures Frames(pipe[pos..], size) == [pipe[pos..pos + size]] + Frames(pipe[pos + size..], size)
  {
    assert pipe[pos..][..size] == pipe[pos..pos + size];
    assert pipe[pos..][size..] == pipe[pos + size..];
  }

  /** The `while True` loop: read a chunk, stop on a short one, otherwise
      write it unchanged. The `np.frombuffer` view is not used. */
  method Passthrough(pipe: seq<byte>, size: int) returns (writes: seq<seq<byte>>)
    requires size != 0
    ensures writes == Frames(pipe, size)
  {
    writes := [];
    var pos := 0;
    assert pipe[0..] == pipe;
    while true
      invariant 0 <= pos <= |pipe|
      invariant Frames(pipe, size) == writes + Frames(pipe[pos..], size)
      decreases |pipe| - pos
    {
      var inBytes := Read(pipe, pos, size);
      if |inBytes| != size {
        break;
      }
      FramesStep(pipe, pos, size);
      writes := writes + [inBytes];
      pos := pos + |inBytes|;
    }
  }

  lemma {:induction false} DivUnique(n: int, size: int, q: int, r: int)
    requires size > 0 && 0 <= r < size && n == q * size + r
    ensures n / size == q && n % size == r
  {
    var q', r' := n / size, n % size;
    assert (q - q') * size == r' - r by {
      assert n == q' * size + r';
    }
    SmallMultiple(q - q', size);
  }

  lemma {:induction false} DivStep(n: int, size: int)
    requires size > 0 && n >= size
    ensures (n - size) / size == n / size - 1
  {
    var q, r := n / size, n % size;
    assert n - size == (q - 1) * size + r;
    DivUnique(n - size, size, q - 1, r);
  }

  /** For a positive size the loop writes `|pipe| / size` chunks, each of
      exactly `size` bytes. */
  lemma {:induction false} FramesCount(pipe: seq<byte>, size: int)
    requires size > 0
    ensures var fs := Frames(pipe, size);
      && |fs| == |pipe| / size
      && (forall k :: 0 <= k < |fs| ==> |fs[k]| == size)
    decreases |pipe|
  {
    if |pipe| < size {
      DivUnique(|pipe|, size, 0, |pipe|);
    } else {
      FramesCount(pipe[size..], size);
      DivStep(|pipe|, size);
      assert Frames(pipe, size) == [pipe[..size]] + Frames(pipe[size..], size);
    }
  }

  /** For a positive size the chunks written, in order, are the input's
      prefix of `|fs| * size` bytes. */
  lemma {:induction false} FramesFlatten(pipe: seq<byte>, size: int)
    requires size > 0
    ensures var fs := Frames(pipe, size);
      && |fs| * size <= |pipe|
      && Flatten(fs) == pipe[..|fs| * size]
    decreases |pipe|
  {
    if |pipe| >= size {
      var fs, rest := Frames(pipe, size), Frames(pipe[size..], size);
      FramesFlatten(pipe[size..], size);
      var m := |rest| * size;
      assert fs == [pipe[..size]] + rest;
      assert fs[1..] == rest;
      MulSucc(|rest|, size);
      assert |fs| * size == m + size;
      assert pipe[..size] + pipe[size..][..m] == pipe[..m + size];
    }
  }

  lemma {:induction false} MulSucc(n: int, size: int)
    ensures (n + 1) * size == n * size + size
  {
  }

  /** For a positive size, every write is one full chunk, the loop writes
      `|pipe| / size` of them, and together they are the input's prefix of
      `(|pipe| / size) * size` bytes, in order: only the final short chunk,
      shorter than `size`, is never written. */
  lemma {:induction false} FramesSpec(pipe: seq<byte>, size: int)
    requires size > 0
    ensures var fs := Frames(pipe, size);
      && |fs| == |pipe| / size
      && (forall k :: 0 <= k < |fs| ==> |fs[k]| == size)
      && |fs| * size <= |pipe| < |fs| * size + size
      && Flatten(fs) == pipe[..|fs| * size]
  {
    FramesCount(pipe, size);
    FramesFlatten(pipe, size);
    var q, r := |pipe| / size, |pipe| % size;
    assert |pipe| == q * size + r && r < size;
  }

  /** A negative frame size makes the first read take the whole pipe, which
      is then not written. */
  lemma {:induction false} NegativeSizeWritesNothing(pipe: seq<byte>, size: int)
    requires size < 0
    ensures Frames(pipe, size) == []
  {
  }

  // ---------------------------------------------------------------------
  // The script

  datatype ScriptOutcome =
    | StopIteration                 // no video stream: `next` raises before any process starts
    | Diverges(width: int, height: int)  // the frame size is 0: `read(0)` returns b'' forever
    | Compressed(width: int, height: int, frameSize: int, written: seq<seq<byte>>)

  function Script(streams: seq<ProbedStream>, pipe: seq<byte>): ScriptOutcome
  {
    match NextVideoStream(streams)
    case None => StopIteration
    case Some(info) =>
      var size := ExpectedFrameSize(info.width, info.height);
      if size == 0 then Diverges(info.width, info.height)
      else Compressed(info.width, info.height, size, Frames(pipe, size))
  }

  /** The whole script: probe, frame size, both processes, the loop. */
  method CompressScript(streams: seq<ProbedStream>, pipe: seq<byte>) returns (outcome: ScriptOutcome)
    ensures outcome == Script(streams, pipe)
  {
    var videoInfo := NextVideoStream(streams);
    if videoInfo.None? {
      return StopIteration;
    }
    var width, height := videoInfo.value.width, videoInfo.value.height;
    var expectedFrameSize := ExpectedFrameSize(width, height);
    if expectedFrameSize == 0 {
      return Diverges(width, height);
    }
    var writes := Passthrough(pipe, expectedFrameSize);
    outcome := Compressed(width, height, expectedFrameSize, writes);
  }

  /** A script that reaches the loop with a positive frame size writes
      whole frames of that size only, and forwards the decoded bytes
      unchanged up to the last whole frame; with a negative frame size (a
      negative width or height) it writes nothing. */
  lemma {:induction false} ScriptForwardsPrefix(streams: seq<ProbedStream>, pipe: seq<byte>)
    requires Script(streams, pipe).Compressed?
    ensures var o := Script(streams, pipe);
      && (o.frameSize > 0 ==>
            (forall k :: 0 <= k < |o.written| ==> |o.written[k]| == o.frameSize) &&
            Flatten(o.written) == pipe[..(|pipe| / o.frameSize) * o.frameSize])
      && (o.frameSize < 0 ==> o.written == [])
  {
    var o := Script(streams, pipe);
    if o.frameSize > 0 {
      FramesSpec(pipe, o.frameSize);
    }
  }

  // ---------------------------------------------------------------------
  // Frame size of raw YUV 4:2:0

  /** The size of one `rawvideo` frame in `yuv420p`: a full-size Y plane and
      two chroma planes of `ceil(width / 2)` by `ceil(height / 2)` bytes. */
  function Yuv420pFrameSize(width: nat, height: nat): nat
  {
    width * height + 2 * ((width + 1) / 2) * ((height + 1) / 2)
  }

  /** For even dimensions the script's formula is the frame size. */
  lemma {:induction false} FrameSizesAgreeWhenEven(width: nat, height: nat)
    requires width % 2 == 0 && height % 2 == 0
    ensures ExpectedFrameSize(width, height) == Yuv420pFrameSize(width, height)
  {
    var a, b := width / 2, height / 2;
    assert width == 2 * a && height == 2 * b;
    assert (width + 1) / 2 == a && (height + 1) / 2 == b;
    assert width * height * 3 == 2 * (6 * a * b);
    assert Yuv420pFrameSize(width, height) == 6 * a * b;
  }

  /** A 3 x 3 video gives a 17-byte frame, but the script reads 13-byte
      chunks: for one decoded frame it forwards 13 bytes, which hold no
      complete frame, so the encoder receives none of it. */
  lemma {:induction false} OddSizeFrameLost()
    ensures ExpectedFrameSize(3, 3) == 13 && Yuv420pFrameSize(3, 3) == 17
    ensures var pipe := seq(17, k => 0 as byte);
      |Flatten(Frames(pipe, ExpectedFrameSize(3, 3)))| / Yuv420pFrameSize(3, 3) == 0
  {
    var pipe := seq(17, k => 0 as byte);
    FramesSpec(pipe, 13);
  }

  /** An input made of whole chunks of a positive size is forwarded
      completely. */
  lemma {:induction false} WholeChunksForwarded(pipe: seq<byte>, size: int)
    requires size > 0 && |pipe| % size == 0
    ensures Flatten(Frames(pipe, size)) == pipe
  {
    FramesSpec(pipe, size);
    var q := |pipe| / size;
    assert |pipe| == q * size;
  }

  lemma {:induction false} Yuv420pFrameSizePositive(width: nat, height: nat)
    requires width > 0 && height > 0
    ensures Yuv420pFrameSize(width, height) > 0
  {
    MulMonotone(1, width, height);
    var c := 2 * ((width + 1) / 2) * ((height + 1) / 2);
    assert c >= 0;
  }

  /** With the frame size of the raw format, an input of whole frames is
      forwarded completely: every decoded frame reaches the encoder. */
  lemma {:induction false} WholeFramesForwarded(pipe: seq<byte>, width: nat, height: nat)
    requires width > 0 && height > 0
    requires |pipe| % Yuv420pFrameSize(width, height) == 0
    ensures Flatten(Frames(pipe, Yuv420pFrameSize(width, height))) == pipe
  {
    Yuv420pFrameSizePositive(width, height);
    WholeChunksForwarded(pipe, Yuv420pFrameSize(width, height));
  }

  /** The script with the frame size of the raw format in place of the
      formula of compressH264.py:18. */
  function IntendedScript(streams: seq<ProbedStream>, pipe: seq<byte>): ScriptOutcome
  {
    match NextVideoStream(streams)
    case None => StopIteration
    case Some(info) =>
      var size := Yuv420pFrameSize(Max0(info.width), Max0(info.height));
      if size == 0 then Diverges(info.width, info.height)
      else Compressed(info.width, info.height, size, Frames(pipe, size))
  }

  /** With the raw format's frame size, a decoder output of whole frames
      reaches the encoder completely, one frame per write. */
  lemma {:induction false} IntendedScriptForwardsEveryFrame(streams: seq<ProbedStream>, pipe: seq<byte>)
    requires IntendedScript(streams, pipe).Compressed?
    requires |pipe| % IntendedScript(streams, pipe).frameSize == 0
    ensures var o := IntendedScript(streams, pipe);
      && o.frameSize > 0
      && |o.written| == |pipe| / o.frameSize
      && (forall k :: 0 <= k < |o.written| ==> |o.written[k]| == o.frameSize)
      && Flatten(o.written) == pipe
  {
    var o := IntendedScript(streams, pipe);
    FramesSpec(pipe, o.frameSize);
    WholeChunksForwarded(pipe, o.frameSize);
  }

  /** For a video of even width and height the two scripts coincide. */
  lemma {:induction false} ScriptsAgreeWhenEven(streams: seq<ProbedStream>, pipe: seq<byte>)
    requires NextVideoStream(streams).Some?
    requires var info := NextVideoStream(streams).value;
      info.width >= 0 && info.height >= 0 && info.width % 2 == 0 && info.height % 2 == 0
    ensures IntendedScript(streams, pipe) == Script(streams, pipe)
  {
    var info := NextVideoStream(streams).value;
    FrameSizesAgreeWhenEven(info.width, info.height);
  }
}
