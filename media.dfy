/** Notions shared by the three FFmpeg programs (read_h264.cpp, pixel_rgb.c,
    pixel_yuv.c) and the Python transcoding script: bytes, stream media types,
    the libavutil error codes the loops check for, the decoder seen as an
    oracle, and the log of observable actions a run produces. */
module Media {

  /** One `uint8_t` of a picture buffer or of the raw-video pipe. */
  newtype byte = x: int | 0 <= x < 256

  /** `enum AVMediaType` of a stream's codec parameters (libavutil/avutil.h). */
  datatype MediaType = Unknown | Video | Audio | Data | Subtitle | Attachment

  /** `AVERROR(EAGAIN)` on Linux: the decoder needs more input. */
  const AVERROR_EAGAIN: int := -11
  /** `AVERROR_EOF` = `FFERRTAG('E','O','F',' ')` = -0x20464F45: the decoder is drained. */
  const AVERROR_EOF: int := -0x2046_4F45

  datatype Option<T> = None | Some(value: T)

  function Max0(n: int): nat { if n < 0 then 0 else n }

  /** Answer of the decoder to one `avcodec_receive_frame` call: the return
      code and the picture it wrote into the frame (meaningful when the code
      signals success). */
  datatype Response<F> = Response(ret: int, frame: F)

  /** One packet returned by `av_read_frame`, together with the decoder's
      answers to it: the code `avcodec_send_packet` returns for it and the
      answers to the successive `avcodec_receive_frame` calls that follow.
      When those answers run out the decoder answers `AVERROR(EAGAIN)`. */
  datatype Packet<F> = Packet(streamIndex: int, sendResult: int, receives: seq<Response<F>>)

  /** The answer to the `j`-th receive call after a packet was sent. */
  function ReceiveAt<F>(rs: seq<Response<F>>, j: nat): (ret: int)
    ensures j >= |rs| ==> ret == AVERROR_EAGAIN
    ensures j < |rs| ==> ret == rs[j].ret
  {
    if j < |rs| then rs[j].ret else AVERROR_EAGAIN
  }

  /** Results of the setup calls made before the packet loop. */
  datatype Setup = Setup(
    openInput: int,            // avformat_open_input
    findStreamInfo: int,       // avformat_find_stream_info
    decoderFound: bool,        // avcodec_find_decoder returned a codec
    parametersToContext: int,  // avcodec_parameters_to_context
    openCodec: int,            // avcodec_open2
    framesAllocated: bool)     // av_frame_alloc and av_packet_alloc both succeeded

  /** How a `read_*` function came to an end. */
  datatype Ending =
    | OpenFailed           // avformat_open_input failed
    | NoStreamInfo         // avformat_find_stream_info failed
    | NoVideoStream        // no stream has codec type video
    | UnsupportedCodec     // no decoder for the stream's codec
    | CodecOpenFailed      // avcodec_open2 failed
    | AllocationFailed     // frame or packet allocation failed
    | Exited(status: int)  // the process called exit(status)
    | Finished             // the packet loop ran to the end of the input

  /** One observable action of a run, in the order it happens. `packet` is
      the position of the packet in the order `av_read_frame` returned it. */
  datatype Event<D> =
    | CloseInput                       // avformat_close_input
    | Send(packet: nat)                // avcodec_send_packet
    | Receive(packet: nat, ret: int)   // avcodec_receive_frame, after sending `packet`
    | Report(number: int, output: D)   // the per-frame printout
    | DecodeError                      // "Error during decoding"
    | Unref(packet: nat)               // av_packet_unref
    | Total(frames: int)               // "Total frames decoded"

  /** The part of the log written by a packet loop, the final frame counter,
      and whether the process exited inside the loop. */
  datatype LoopResult<D> = LoopResult(log: seq<Event<D>>, counter: int, aborted: bool)

  /** Prefixes the log of `r` with `prefix`. */
  function Then<D>(prefix: seq<Event<D>>, r: LoopResult<D>): LoopResult<D>
  {
    LoopResult(prefix + r.log, r.counter, r.aborted)
  }

  /** `lo, lo + 1, ..., lo + n - 1`. */
  function Range(lo: int, n: nat): (r: seq<int>)
    ensures |r| == n
  {
    seq(n, i => lo + i)
  }

  lemma {:induction false} RangeSplit(lo: int, a: nat, b: nat)
    ensures Range(lo, a) + Range(lo + a, b) == Range(lo, a + b)
  {
    var r := Range(lo, a) + Range(lo + a, b);
    assert forall i | 0 <= i < a + b :: r[i] == Range(lo, a + b)[i];
  }

  /** Two adjacent runs of consecutive numbers make one. */
  lemma {:induction false} RangeJoin(x: seq<int>, y: seq<int>, lo: int, mid: int, hi: int)
    requires lo <= mid <= hi
    requires x == Range(lo, mid - lo) && y == Range(mid, hi - mid)
    ensures x + y == Range(lo, hi - lo)
  {
    RangeSplit(lo, mid - lo, hi - mid);
  }

  lemma {:induction false} RangeCons(lo: int, n: nat)
    ensures [lo] + Range(lo + 1, n) == Range(lo, n + 1)
  {
    assert Range(lo, 1) == [lo];
    RangeSplit(lo, 1, n);
  }

  /** Positions in `lo .. hi` of the packets of `ps` that belong to stream `index`, in order. */
  function Matching<F>(ps: seq<Packet<F>>, index: int, lo: nat, hi: nat): (r: seq<nat>)
    requires lo <= hi <= |ps|
    ensures |r| <= hi - lo
    decreases hi - lo
  {
    if lo == hi then []
    else (if ps[lo].streamIndex == index then [lo] else []) + Matching(ps, index, lo + 1, hi)
  }

  /** `Matching` lists exactly the positions in `lo .. hi` of the packets of
      stream `index`, each once, in increasing order. */
  lemma {:induction false} MatchingExact<F>(ps: seq<Packet<F>>, index: int, lo: nat, hi: nat)
    requires lo <= hi <= |ps|
    ensures forall m: nat :: m in Matching(ps, index, lo, hi) <==> lo <= m < hi && ps[m].streamIndex == index
    ensures forall a, b :: 0 <= a < b < |Matching(ps, index, lo, hi)| ==>
              Matching(ps, index, lo, hi)[a] < Matching(ps, index, lo, hi)[b]
    decreases hi - lo
  {
    if lo < hi {
      MatchingExact(ps, index, lo + 1, hi);
      var rest := Matching(ps, index, lo + 1, hi);
      var head: seq<nat> := if ps[lo].streamIndex == index then [lo] else [];
      assert Matching(ps, index, lo, hi) == head + rest;
      assert forall m :: 0 <= m < |rest| ==> lo < rest[m] by {
        forall m | 0 <= m < |rest| ensures lo < rest[m] {
          assert rest[m] in rest;
        }
      }
    }
  }

  lemma {:induction false} ThenAssoc<D>(a: seq<Event<D>>, b: seq<Event<D>>, r: LoopResult<D>)
    ensures Then(a, Then(b, r)) == Then(a + b, r)
  {
    assert a + (b + r.log) == (a + b) + r.log;
  }

  /** The log and the ending of a whole `read_*` call. */
  datatype Run<D> = Run(log: seq<Event<D>>, ending: Ending)

  // ---------------------------------------------------------------------
  // Projections of a log

  /** The concatenation of what `f` picks out of each event of `log`, in order. */
  function Project<D, T>(log: seq<Event<D>>, f: Event<D> -> seq<T>): seq<T>
    decreases |log|
  {
    if log == [] then [] else f(log[0]) + Project(log[1..], f)
  }

  function SendOf<D>(e: Event<D>): seq<nat> { if e.Send? then [e.packet] else [] }
  function UnrefOf<D>(e: Event<D>): seq<nat> { if e.Unref? then [e.packet] else [] }
  function RetOf<D>(e: Event<D>): seq<int> { if e.Receive? then [e.ret] else [] }
  function NumberOf<D>(e: Event<D>): seq<int> { if e.Report? then [e.number] else [] }
  function OutputOf<D>(e: Event<D>): seq<D> { if e.Report? then [e.output] else [] }

  /** Positions of the packets handed to `avcodec_send_packet`, in order. */
  function Sends<D>(log: seq<Event<D>>): seq<nat> { Project(log, SendOf) }

  /** Positions of the packets released with `av_packet_unref`, in order. */
  function Unrefs<D>(log: seq<Event<D>>): seq<nat> { Project(log, UnrefOf) }

  /** The codes returned by the `avcodec_receive_frame` calls, in order. */
  function Rets<D>(log: seq<Event<D>>): seq<int> { Project(log, RetOf) }

  /** The frame numbers printed, in order. */
  function Numbers<D>(log: seq<Event<D>>): seq<int> { Project(log, NumberOf) }

  /** What was printed for each frame, in order. */
  function Outputs<D>(log: seq<Event<D>>): seq<D> { Project(log, OutputOf) }

  /** The number of codes in `s` that are at least 0. */
  function NonNegatives(s: seq<int>): nat
  {
    if s == [] then 0 else (if s[0] >= 0 then 1 else 0) + NonNegatives(s[1..])
  }

  /** The number of codes in `s` that are exactly 0. */
  function Zeros(s: seq<int>): nat
  {
    if s == [] then 0 else (if s[0] == 0 then 1 else 0) + Zeros(s[1..])
  }

  /** A projection distributes over the concatenation of two logs. */
  lemma {:induction false} ProjectAppend<D, T>(a: seq<Event<D>>, b: seq<Event<D>>, f: Event<D> -> seq<T>)
    ensures Project(a + b, f) == Project(a, f) + Project(b, f)
    decreases |a|
  {
    if a == [] {
      assert a + b == b;
    } else {
      assert (a + b)[0] == a[0] && (a + b)[1..] == a[1..] + b;
      ProjectAppend(a[1..], b, f);
    }
  }

  lemma {:induction false} ProjectSingle<D, T>(e: Event<D>, f: Event<D> -> seq<T>)
    ensures Project([e], f) == f(e)
  {
    assert [e][1..] == [];
  }

  lemma {:induction false} ProjectPair<D, T>(a: Event<D>, b: Event<D>, f: Event<D> -> seq<T>)
    ensures Project([a, b], f) == f(a) + f(b)
  {
    assert [a, b] == [a] + [b];
    ProjectSingle(a, f);
    ProjectSingle(b, f);
    ProjectAppend([a], [b], f);
  }

  /** The projection of the log of one packet of the decoded stream: it
      is sent, `body` happens, it is released, and `rest` follows. */
  lemma {:induction false} ProjectPacket<D, T>(k: nat, body: seq<Event<D>>, rest: seq<Event<D>>, f: Event<D> -> seq<T>)
    ensures Project([Send(k)] + ((body + [Unref(k)]) + rest), f) ==
            f(Send(k)) + ((Project(body, f) + f(Unref(k))) + Project(rest, f))
  {
    var m := body + [Unref(k)];
    ProjectSingle(Send(k), f);
    ProjectSingle(Unref(k), f);
    ProjectAppend(body, [Unref(k)], f);
    ProjectAppend(m, rest, f);
    ProjectAppend([Send(k)], m + rest, f);
  }

  /** The projection of the log of one packet of another stream: it is
      only released, and `rest` follows. */
  lemma {:induction false} ProjectSkip<D, T>(k: nat, rest: seq<Event<D>>, f: Event<D> -> seq<T>)
    ensures Project([Unref(k)] + rest, f) == f(Unref(k)) + Project(rest, f)
  {
    ProjectSingle(Unref(k), f);
    ProjectAppend([Unref(k)], rest, f);
  }

  lemma {:induction false} CountsAppend(a: seq<int>, b: seq<int>)
    ensures NonNegatives(a + b) == NonNegatives(a) + NonNegatives(b)
    ensures Zeros(a + b) == Zeros(a) + Zeros(b)
    decreases |a|
  {
    if a == [] {
      assert a + b == b;
    } else {
      assert (a + b)[1..] == a[1..] + b;
      CountsAppend(a[1..], b);
    }
  }
}
