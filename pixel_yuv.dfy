/** pixel_yuv.c: decode the first video stream of a file and print, for
    every decoded frame, its Y plane at full size and its U and V planes at
    half size (planar YUV 4:2:0), each read through its own linesize.

    The decoder's picture `F` here is the frame's three planes with their
    linesizes; the program does not check the pixel format, so the model
    asks that every plane covers what `print_yuv_values` reads. */
module PixelYuv {
  import opened Media
  import opened StreamSelect
  import opened Sampling
  import opened PixelDecode

  /** What the program prints for one decoded frame: the rows of Y, then of
      U, then of V. A frame whose planes are too small for the reads has no
      defined printout (the C reads out of bounds) and prints nothing here. */
  function YuvPicture(width: int, height: int, f: YuvFrame): seq<seq<byte>>
  {
    if YuvFits(f, width, height) then YuvRows(f, width, height) else []
  }

  function YuvDump(width: int, height: int): YuvFrame -> seq<seq<byte>>
  {
    f => YuvPicture(width, height, f)
  }

  /** Every frame the decoder hands out covers the codec's picture size. */
  predicate Decodable(ps: seq<Packet<YuvFrame>>, width: int, height: int)
  {
    forall i, j :: 0 <= i < |ps| && 0 <= j < |ps[i].receives| ==>
      YuvFits(ps[i].receives[j].frame, width, height)
  }

  /** The inner `while (avcodec_receive_frame(...) == 0)` for packet `k`:
      print the frame number and the three planes, and count the frame. */
  method ReceiveFrames(rs: seq<Response<YuvFrame>>, k: nat, counter: int, width: int, height: int)
    returns (log: seq<Event<seq<seq<byte>>>>, frameCounter: int)
    requires forall j :: 0 <= j < |rs| ==> YuvFits(rs[j].frame, width, height)
    ensures LoopResult(log, frameCounter, false) == Drain(rs, 0, k, counter, YuvDump(width, height))
  {
    var dump := YuvDump(width, height);
    log, frameCounter := [], counter;
    var j := 0;
    while true
      invariant 0 <= j <= |rs|
      invariant Drain(rs, 0, k, counter, dump) == Then(log, Drain(rs, j, k, frameCounter, dump))
      decreases |rs| - j
    {
      var ret := ReceiveAt(rs, j);
      if ret != 0 {
        log := log + [Receive(k, ret)];
        break;
      }
      var planes := PrintYuvValues(rs[j].frame, width, height);
      assert planes == dump(rs[j].frame);
      ThenAssoc(log, [Receive(k, 0), Report(frameCounter, planes)], Drain(rs, j + 1, k, frameCounter + 1, dump));
      log := log + [Receive(k, 0), Report(frameCounter, planes)];
      frameCounter := frameCounter + 1;
      j := j + 1;
    }
  }

  /** The read / send / receive loop of `read_video_frames`, with `frameCounter`. */
  method DecodeLoop(ps: seq<Packet<YuvFrame>>, videoStreamIndex: int, width: int, height: int)
    returns (log: seq<Event<seq<seq<byte>>>>, frameCounter: int)
    requires Decodable(ps, width, height)
    ensures LoopResult(log, frameCounter, false) == Loop(ps, videoStreamIndex, 0, 0, YuvDump(width, height))
  {
    var dump := YuvDump(width, height);
    log, frameCounter := [], 0;
    var i := 0;
    while i < |ps|
      invariant 0 <= i <= |ps|
      invariant Loop(ps, videoStreamIndex, 0, 0, dump) == Then(log, Loop(ps, videoStreamIndex, i, frameCounter, dump))
    {
      var packet := ps[i];
      if packet.streamIndex == videoStreamIndex {
        var frames, counter := [], frameCounter;
        if packet.sendResult == 0 {
          frames, counter := ReceiveFrames(packet.receives, i, frameCounter, width, height);
        }
        var rest := Loop(ps, videoStreamIndex, i + 1, counter, dump);
        ThenAssoc([Send(i)], frames + [Unref(i)], rest);
        ThenAssoc(log, [Send(i)] + (frames + [Unref(i)]), rest);
        log, frameCounter := log + ([Send(i)] + (frames + [Unref(i)])), counter;
      } else {
        ThenAssoc(log, [Unref(i)], Loop(ps, videoStreamIndex, i + 1, frameCounter, dump));
        log := log + [Unref(i)];
      }
      i := i + 1;
    }
  }

  /** `read_video_frames(filename)`: `setup` holds the outcomes of the
      library calls for that file, `types` the codec types of its streams,
      `ps` its packets with the decoder's answers, and `width` and
      `height` the codec context's picture size. */
  method ReadVideoFrames(setup: Setup, types: seq<MediaType>, ps: seq<Packet<YuvFrame>>, width: int, height: int)
    returns (run: Run<seq<seq<byte>>>)
    requires Decodable(ps, width, height)
    ensures run == PixelRun(setup, FirstVideoIndex(types), ps, YuvDump(width, height))
  {
    if setup.openInput < 0 {
      return Run([], OpenFailed);
    }
    if setup.findStreamInfo < 0 {
      return Run([CloseInput], NoStreamInfo);
    }
    var videoStreamIndex := FindVideoStream(types);
    if videoStreamIndex == -1 {
      return Run([CloseInput], NoVideoStream);
    }
    if !setup.decoderFound {
      return Run([CloseInput], UnsupportedCodec);
    }
    if setup.openCodec < 0 {
      return Run([CloseInput], CodecOpenFailed);
    }
    var log, frameCounter := DecodeLoop(ps, videoStreamIndex, width, height);
    run := Run(log + [CloseInput], Finished);
  }

  /** `main`: without a file argument it prints the usage and returns -1
      before reading anything; otherwise it reads `argv[1]` and returns 0. */
  method MainProgram(argv: seq<string>, setup: Setup, types: seq<MediaType>, ps: seq<Packet<YuvFrame>>,
                     width: int, height: int)
    returns (status: int, run: Option<Run<seq<seq<byte>>>>)
    requires Decodable(ps, width, height)
    ensures |argv| < 2 ==> status == -1 && run == None
    ensures |argv| >= 2 ==> status == 0 && run == Some(PixelRun(setup, FirstVideoIndex(types), ps, YuvDump(width, height)))
  {
    if |argv| < 2 {
      return -1, None;
    }
    var r := ReadVideoFrames(setup, types, ps, width, height);
    return 0, Some(r);
  }

  // ---------------------------------------------------------------------
  // Properties

  /** A run that reaches the packet loop goes on to the end of the input
      and then closes it; every packet read is released and exactly the
      video packets are sent; the frames are numbered 0, 1, ... and what is
      printed for them is the three planes of each frame the decoder handed
      out, once each and in order. */
  lemma {:induction false} RunFinished(setup: Setup, types: seq<MediaType>, ps: seq<Packet<YuvFrame>>, width: int, height: int)
    requires PixelRun(setup, FirstVideoIndex(types), ps, YuvDump(width, height)).ending == Finished
    ensures var run, v := PixelRun(setup, FirstVideoIndex(types), ps, YuvDump(width, height)), FirstVideoIndex(types);
      && v >= 0 && types[v] == Video
      && |run.log| >= 1 && run.log[|run.log| - 1] == CloseInput
      && Unrefs(run.log) == Range(0, |ps|)
      && Sends(run.log) == Matching(ps, v, 0, |ps|)
      && Numbers(run.log) == Range(0, Zeros(Rets(run.log)))
      && Outputs(run.log) == MapDump(Decoded(ps, v, 0), YuvDump(width, height))
  {
    PixelRunFinished(setup, FirstVideoIndex(types), ps, YuvDump(width, height));
  }

  /** For an odd width or height the chroma loops stop at the truncated
      half: a 3 x 3 frame prints 3 luma rows of 3 values and 1 row of 1
      value for each of U and V, so the last chroma sample of each row
      and column of a 4:2:0 frame (whose chroma planes are 2 x 2) is never
      printed. */
  lemma {:induction false} OddSizeChroma(f: YuvFrame)
    requires YuvFits(f, 3, 3)
    ensures var rows := YuvPicture(3, 3, f);
      |rows| == 5 && |rows[0]| == 3 && |rows[3]| == 1 && |rows[4]| == 1
  {
    YuvRowsLayout(f, 3, 3);
  }
}
