/** pixel_rgb.c: decode the first video stream of a file, convert each
    decoded frame to packed RGB24 and print the (r, g, b) triple of every
    pixel, frame by frame.

    The conversion by `sws_scale` is not modelled: the decoder's picture
    `F` here is the RGB24 buffer the conversion fills, `numBytes` =
    `3 * width * height` bytes long, and `rgbFrame->linesize[0]` is
    `3 * width` because `av_image_fill_arrays` is called with alignment 1. */
module PixelRgb {
  import opened Media
  import opened StreamSelect
  import opened Sampling
  import opened PixelDecode

  /** `av_image_get_buffer_size(AV_PIX_FMT_RGB24, width, height, 1)`. */
  function RgbBufferSize(width: int, height: int): nat
  {
    3 * Max0(width) * Max0(height)
  }

  /** `rgbFrame->linesize[0]` as `av_image_fill_arrays` sets it with alignment 1. */
  function RgbLinesize(width: int): nat
  {
    3 * Max0(width)
  }

  /** The conversion buffer is large enough for every read of `print_pixel_values`. */
  lemma {:induction false} RgbBufferFits(width: int, height: int)
    ensures RgbFits(RgbBufferSize(width, height), width, height, RgbLinesize(width))
  {
    var w, h := Max0(width), Max0(height);
    if w > 0 && h > 0 {
      assert Offset(3 * w, h - 1, 3 * w) == 3 * w * h by {
        assert (h - 1) * (3 * w) + 3 * w == h * (3 * w);
      }
    }
  }

  /** What the program prints for one converted picture: its rows of
      triples, read with the conversion buffer's linesize. A buffer of any
      other size cannot come out of the conversion and prints nothing. */
  function RgbPicture(width: int, height: int, buf: seq<byte>): seq<seq<Rgb>>
  {
    if |buf| == RgbBufferSize(width, height) then
      RgbBufferFits(width, height);
      RgbRows(buf, Max0(width), Max0(height), RgbLinesize(width))
    else []
  }

  function RgbDump(width: int, height: int): seq<byte> -> seq<seq<Rgb>>
  {
    buf => RgbPicture(width, height, buf)
  }

  /** Every converted picture the decoder hands out fills the buffer. */
  predicate Converted(ps: seq<Packet<seq<byte>>>, width: int, height: int)
  {
    forall i, j :: 0 <= i < |ps| && 0 <= j < |ps[i].receives| ==>
      |ps[i].receives[j].frame| == RgbBufferSize(width, height)
  }

  /** The inner `while (avcodec_receive_frame(...) == 0)` for packet `k`:
      print the frame number, the pixels, and count the frame. */
  method ReceiveFrames(rs: seq<Response<seq<byte>>>, k: nat, counter: int, width: int, height: int)
    returns (log: seq<Event<seq<seq<Rgb>>>>, frameCounter: int)
    requires forall j :: 0 <= j < |rs| ==> |rs[j].frame| == RgbBufferSize(width, height)
    ensures LoopResult(log, frameCounter, false) == Drain(rs, 0, k, counter, RgbDump(width, height))
  {
    var dump := RgbDump(width, height);
    log, frameCounter := [], counter;
    var j := 0;
    while true
      invariant 0 <= j <= |rs|
      invariant Drain(rs, 0, k, counter, dump) == Then(log, Drain(rs, j, k, frameCounter, dump))
      decreases |rs| - j
    {
      var ret := ReceiveAt(rs, j);
      if ret != 0 {
        log := log + [Receive(k, ret)];
        break;
      }
      RgbBufferFits(width, height);
      var pixels := PrintPixelValues(rs[j].frame, width, height, RgbLinesize(width));
      assert pixels == dump(rs[j].frame);
      ThenAssoc(log, [Receive(k, 0), Report(frameCounter, pixels)], Drain(rs, j + 1, k, frameCounter + 1, dump));
      log := log + [Receive(k, 0), Report(frameCounter, pixels)];
      frameCounter := frameCounter + 1;
      j := j + 1;
    }
  }

  /** The read / send / receive loop of `read_video_frames`, with `frameCounter`. */
  method DecodeLoop(ps: seq<Packet<seq<byte>>>, videoStreamIndex: int, width: int, height: int)
    returns (log: seq<Event<seq<seq<Rgb>>>>, frameCounter: int)
    requires Converted(ps, width, height)
    ensures LoopResult(log, frameCounter, false) == Loop(ps, videoStreamIndex, 0, 0, RgbDump(width, height))
  {
    var dump := RgbDump(width, height);
    log, frameCounter := [], 0;
    var i := 0;
    while i < |ps|
      invariant 0 <= i <= |ps|
      invariant Loop(ps, videoStreamIndex, 0, 0, dump) == Then(log, Loop(ps, videoStreamIndex, i, frameCounter, dump))
    {
      var packet := ps[i];
      if packet.streamIndex == videoStreamIndex {
        var frames, counter := [], frameCounter;
        if packet.sendResult == 0 {
          frames, counter := ReceiveFrames(packet.receives, i, frameCounter, width, height);
        }
        var rest := Loop(ps, videoStreamIndex, i + 1, counter, dump);
        ThenAssoc([Send(i)], frames + [Unref(i)], rest);
        ThenAssoc(log, [Send(i)] + (frames + [Unref(i)]), rest);
        log, frameCounter := log + ([Send(i)] + (frames + [Unref(i)])), counter;
      } else {
        ThenAssoc(log, [Unref(i)], Loop(ps, videoStreamIndex, i + 1, frameCounter, dump));
        log := log + [Unref(i)];
      }
      i := i + 1;
    }
  }

  /** `read_video_frames(filename)`: `setup` holds the outcomes of the
      library calls for that file, `types` the codec types of its streams,
      `ps` its packets with the decoder's answers, and `width` and
      `height` the decoder's picture size. */
  method ReadVideoFrames(setup: Setup, types: seq<MediaType>, ps: seq<Packet<seq<byte>>>, width: int, height: int)
    returns (run: Run<seq<seq<Rgb>>>)
    requires Converted(ps, width, height)
    ensures run == PixelRun(setup, FirstVideoIndex(types), ps, RgbDump(width, height))
  {
    if setup.openInput < 0 {
      return Run([], OpenFailed);
    }
    if setup.findStreamInfo < 0 {
      return Run([CloseInput], NoStreamInfo);
    }
    var videoStreamIndex := FindVideoStream(types);
    if videoStreamIndex == -1 {
      return Run([CloseInput], NoVideoStream);
    }
    if !setup.decoderFound {
      return Run([CloseInput], UnsupportedCodec);
    }
    if setup.openCodec < 0 {
      return Run([CloseInput], CodecOpenFailed);
    }
    var log, frameCounter := DecodeLoop(ps, videoStreamIndex, width, height);
    run := Run(log + [CloseInput], Finished);
  }

  /** `main`: without a file argument it prints the usage and returns -1
      before reading anything; otherwise it reads `argv[1]` and returns 0. */
  method MainProgram(argv: seq<string>, setup: Setup, types: seq<MediaType>, ps: seq<Packet<seq<byte>>>,
                     width: int, height: int)
    returns (status: int, run: Option<Run<seq<seq<Rgb>>>>)
    requires Converted(ps, width, height)
    ensures |argv| < 2 ==> status == -1 && run == None
    ensures |argv| >= 2 ==> status == 0 && run == Some(PixelRun(setup, FirstVideoIndex(types), ps, RgbDump(width, height)))
  {
    if |argv| < 2 {
      return -1, None;
    }
    var r := ReadVideoFrames(setup, types, ps, width, height);
    return 0, Some(r);
  }

  // ---------------------------------------------------------------------
  // Properties

  /** The printout of one converted picture: `height` rows of `width`
      triples, triple `x` of row `y` being the bytes at
      `y * 3 * width + 3 * x`, `+ 1` and `+ 2` of the buffer. */
  lemma {:induction false} PictureLayout(width: nat, height: nat, buf: seq<byte>)
    requires |buf| == RgbBufferSize(width, height)
    ensures var rows := RgbPicture(width, height, buf);
      && |rows| == height
      && forall y, x :: 0 <= y < height && 0 <= x < width ==>
           0 <= Offset(3 * width, y, 3 * x) && Offset(3 * width, y, 3 * x) + 2 < |buf| &&
           |rows[y]| == width &&
           rows[y][x] == Rgb(buf[Offset(3 * width, y, 3 * x)], buf[Offset(3 * width, y, 3 * x) + 1],
                             buf[Offset(3 * width, y, 3 * x) + 2])
  {
    RgbBufferFits(width, height);
    var rows := RgbPicture(width, height, buf);
    assert rows == RgbRows(buf, width, height, 3 * width);
    forall y, x | 0 <= y < height && 0 <= x < width
      ensures 0 <= Offset(3 * width, y, 3 * x) && Offset(3 * width, y, 3 * x) + 2 < |buf|
      ensures |rows[y]| == width
      ensures rows[y][x] == Rgb(buf[Offset(3 * width, y, 3 * x)], buf[Offset(3 * width, y, 3 * x) + 1],
                                buf[Offset(3 * width, y, 3 * x) + 2])
    {
      RgbPixelAt(buf, width, height, 3 * width, y, x);
    }
  }

  /** A run that reaches the packet loop: it goes on to the end of the
      input and then closes it; every packet read is released and exactly
      the video packets are sent; the frames are numbered 0, 1, ... and
      what is printed for them is the picture of each frame the decoder
      handed out, once each and in order. */
  lemma {:induction false} RunFinished(setup: Setup, types: seq<MediaType>, ps: seq<Packet<seq<byte>>>, width: int, height: int)
    requires PixelRun(setup, FirstVideoIndex(types), ps, RgbDump(width, height)).ending == Finished
    ensures var run, v := PixelRun(setup, FirstVideoIndex(types), ps, RgbDump(width, height)), FirstVideoIndex(types);
      && v >= 0 && types[v] == Video
      && |run.log| >= 1 && run.log[|run.log| - 1] == CloseInput
      && Unrefs(run.log) == Range(0, |ps|)
      && Sends(run.log) == Matching(ps, v, 0, |ps|)
      && Numbers(run.log) == Range(0, Zeros(Rets(run.log)))
      && Outputs(run.log) == MapDump(Decoded(ps, v, 0), RgbDump(width, height))
  {
    var v := FirstVideoIndex(types);
    PixelRunFinished(setup, v, ps, RgbDump(width, height));
  }
}
