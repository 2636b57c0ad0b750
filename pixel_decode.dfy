/** The packet loop that pixel_rgb.c and pixel_yuv.c share: every packet of
    the video stream is sent, and only when the send returns 0 is the
    decoder drained, with `avcodec_receive_frame` called while it returns 0.
    Each frame is announced by its number (counted from 0) and dumped; the
    two programs differ only in the dump, the parameter `dump` here (`F` is
    the picture the program dumps, `D` what the dump prints). Unlike
    read_h264.cpp, nothing in this loop ends the process. */
module PixelDecode {
  import opened Media

  /** The inner `while (avcodec_receive_frame(...) == 0)` after packet `k`,
      from the `j`-th receive call on: the frame number is printed before
      the counter is incremented. */
  function Drain<F, D>(rs: seq<Response<F>>, j: nat, k: nat, counter: int, dump: F -> D): LoopResult<D>
    decreases |rs| - j
  {
    var ret := ReceiveAt(rs, j);
    if ret != 0 then LoopResult([Receive(k, ret)], counter, false)
    else Then([Receive(k, 0), Report(counter, dump(rs[j].frame))], Drain(rs, j + 1, k, counter + 1, dump))
  }

  /** The outer `while (av_read_frame(...) >= 0)` from packet `i` on. A
      packet whose send does not return 0 is released without draining. */
  function Loop<F, D>(ps: seq<Packet<F>>, v: int, i: nat, counter: int, dump: F -> D): LoopResult<D>
    decreases |ps| - i, 1
  {
    if i >= |ps| then LoopResult([], counter, false)
    else if ps[i].streamIndex != v then Then([Unref(i)], Loop(ps, v, i + 1, counter, dump))
    else if ps[i].sendResult != 0 then Then([Send(i)], AfterDrain(ps, v, i, LoopResult([], counter, false), dump))
    else Then([Send(i)], AfterDrain(ps, v, i, Drain(ps[i].receives, 0, i, counter, dump), dump))
  }

  /** What follows the inner loop of packet `i`: the release of the packet
      and the rest of the outer loop. */
  function AfterDrain<F, D>(ps: seq<Packet<F>>, v: int, i: nat, d: LoopResult<D>, dump: F -> D): LoopResult<D>
    requires i < |ps|
    decreases |ps| - i, 0
  {
    Then(d.log + [Unref(i)], Loop(ps, v, i + 1, d.counter, dump))
  }

  /** The whole of `read_video_frames`, with `v` the index the stream
      search found: the setup outcomes, then the loop and the final
      `avformat_close_input`. The result of `avcodec_parameters_to_context`
      is not looked at, and neither are the allocations. */
  function PixelRun<F, D>(setup: Setup, v: int, ps: seq<Packet<F>>, dump: F -> D): Run<D>
  {
    if setup.openInput < 0 then Run([], OpenFailed)
    else if setup.findStreamInfo < 0 then Run([CloseInput], NoStreamInfo)
    else if v == -1 then Run([CloseInput], NoVideoStream)
    else if !setup.decoderFound then Run([CloseInput], UnsupportedCodec)
    else if setup.openCodec < 0 then Run([CloseInput], CodecOpenFailed)
    else Run(Loop(ps, v, 0, 0, dump).log + [CloseInput], Finished)
  }

  // ---------------------------------------------------------------------
  // Reference definitions

  /** Position of the first receive answer, from `j` on, that is not 0, or
      `|rs|` when the answers run out. */
  function FirstNonZero<F>(rs: seq<Response<F>>, j: nat): (n: nat)
    requires j <= |rs|
    ensures j <= n <= |rs|
    ensures forall m :: j <= m < n ==> rs[m].ret == 0
    ensures n < |rs| ==> rs[n].ret != 0
    decreases |rs| - j
  {
    if j == |rs| || rs[j].ret != 0 then j else FirstNonZero(rs, j + 1)
  }

  /** The pictures of the answers `j .. n - 1`, in order. */
  function Pictures<F>(rs: seq<Response<F>>, j: nat, n: nat): seq<F>
    requires j <= n <= |rs|
    decreases n - j
  {
    if j == n then [] else [rs[j].frame] + Pictures(rs, j + 1, n)
  }

  /** The frames the decoder hands out for the packets from `i` on: for
      each packet of stream `v` whose send returns 0, the pictures answered
      before the first non-zero code, in order. */
  function Decoded<F>(ps: seq<Packet<F>>, v: int, i: nat): seq<F>
    requires i <= |ps|
    decreases |ps| - i
  {
    if i == |ps| then []
    else if ps[i].streamIndex != v || ps[i].sendResult != 0 then Decoded(ps, v, i + 1)
    else
      var rs := ps[i].receives;
      Pictures(rs, 0, FirstNonZero(rs, 0)) + Decoded(ps, v, i + 1)
  }

  /** `dump` applied to every element of `fs`. */
  function MapDump<F, D>(fs: seq<F>, dump: F -> D): (ds: seq<D>)
    ensures |ds| == |fs|
    ensures forall m :: 0 <= m < |fs| ==> ds[m] == dump(fs[m])
  {
    seq(|fs|, m requires 0 <= m < |fs| => dump(fs[m]))
  }

  lemma {:induction false} MapDumpAppend<F, D>(a: seq<F>, b: seq<F>, dump: F -> D)
    ensures MapDump(a + b, dump) == MapDump(a, dump) + MapDump(b, dump)
  {
    assert forall m :: 0 <= m < |a| + |b| ==> (a + b)[m] == if m < |a| then a[m] else b[m - |a|];
  }

  // ---------------------------------------------------------------------
  // The inner loop

  /** The last receive call of the inner loop, which answers a code other than 0. */
  lemma {:induction false} DrainStop<F, D, T>(rs: seq<Response<F>>, j: nat, k: nat, counter: int, dump: F -> D,
                                              f: Event<D> -> seq<T>)
    requires ReceiveAt(rs, j) != 0
    ensures var d := Drain(rs, j, k, counter, dump);
      && d.counter == counter && !d.aborted
      && d.log == [Receive(k, ReceiveAt(rs, j))]
      && Project(d.log, f) == f(Receive(k, ReceiveAt(rs, j)))
  {
    ProjectSingle(Receive(k, ReceiveAt(rs, j)), f);
  }

  /** One receive call of the inner loop that answers 0: the frame is
      announced and dumped, and the loop goes on. */
  lemma {:induction false} DrainUnfold<F, D>(rs: seq<Response<F>>, j: nat, k: nat, counter: int, dump: F -> D)
    requires j < |rs| && rs[j].ret == 0
    ensures var d, rest := Drain(rs, j, k, counter, dump), Drain(rs, j + 1, k, counter + 1, dump);
      && d.counter == rest.counter && d.aborted == rest.aborted
      && d.log == [Receive(k, 0), Report(counter, dump(rs[j].frame))] + rest.log
  {
  }

  /** A projection of the log of one receive call that answers 0 and what follows it. */
  lemma {:induction false} DrainStep<F, D, T>(rs: seq<Response<F>>, j: nat, k: nat, counter: int, dump: F -> D,
                                              f: Event<D> -> seq<T>)
    requires j < |rs| && rs[j].ret == 0
    ensures var rest := Drain(rs, j + 1, k, counter + 1, dump);
      Project(Drain(rs, j, k, counter, dump).log, f) ==
        (f(Receive(k, 0)) + f(Report(counter, dump(rs[j].frame)))) + Project(rest.log, f)
  {
    var head := [Receive(k, 0), Report(counter, dump(rs[j].frame))];
    DrainUnfold(rs, j, k, counter, dump);
    ProjectPair(head[0], head[1], f);
    ProjectAppend(head, Drain(rs, j + 1, k, counter + 1, dump).log, f);
  }

  /** The inner loop never ends the process; it numbers the frames
      answered before the first non-zero code on from the counter, which it
      leaves at its value plus their number. */
  lemma {:induction false} DrainNumbering<F, D>(rs: seq<Response<F>>, j: nat, k: nat, counter: int, dump: F -> D)
    requires j <= |rs|
    ensures var d, n := Drain(rs, j, k, counter, dump), FirstNonZero(rs, j);
      && !d.aborted
      && d.counter == counter + (n - j)
      && Numbers(d.log) == Range(counter, n - j)
    decreases |rs| - j
  {
    if ReceiveAt(rs, j) != 0 {
      DrainStop(rs, j, k, counter, dump, NumberOf);
    } else {
      var n := FirstNonZero(rs, j);
      DrainNumbering(rs, j + 1, k, counter + 1, dump);
      DrainUnfold(rs, j, k, counter, dump);
      DrainStep(rs, j, k, counter, dump, NumberOf);
      RangeCons(counter, n - j - 1);
    }
  }

  /** The inner loop sends and releases nothing, and every receive call in
      it is attributed to the packet it drains. */
  lemma {:induction false} DrainPackets<F, D>(rs: seq<Response<F>>, j: nat, k: nat, counter: int, dump: F -> D)
    requires j <= |rs|
    ensures var d := Drain(rs, j, k, counter, dump);
      && Sends(d.log) == [] && Unrefs(d.log) == []
      && (forall e :: e in d.log && e.Receive? ==> e.packet == k)
    decreases |rs| - j
  {
    if ReceiveAt(rs, j) != 0 {
      DrainStop(rs, j, k, counter, dump, SendOf);
      DrainStop(rs, j, k, counter, dump, UnrefOf);
    } else {
      DrainPackets(rs, j + 1, k, counter + 1, dump);
      DrainUnfold(rs, j, k, counter, dump);
      DrainStep(rs, j, k, counter, dump, SendOf);
      DrainStep(rs, j, k, counter, dump, UnrefOf);
    }
  }

  /** What the inner loop dumps is each picture answered before the first
      non-zero code, in order. */
  lemma {:induction false} DrainOutputs<F, D>(rs: seq<Response<F>>, j: nat, k: nat, counter: int, dump: F -> D)
    requires j <= |rs|
    ensures Outputs(Drain(rs, j, k, counter, dump).log) == MapDump(Pictures(rs, j, FirstNonZero(rs, j)), dump)
    decreases |rs| - j
  {
    if ReceiveAt(rs, j) != 0 {
      DrainStop(rs, j, k, counter, dump, OutputOf);
    } else {
      var n := FirstNonZero(rs, j);
      DrainOutputs(rs, j + 1, k, counter + 1, dump);
      DrainStep(rs, j, k, counter, dump, OutputOf);
      MapDumpAppend([rs[j].frame], Pictures(rs, j + 1, n), dump);
    }
  }

  /** The inner loop makes one receive call per 0 answer and one more. */
  lemma {:induction false} DrainReceives<F, D>(rs: seq<Response<F>>, j: nat, k: nat, counter: int, dump: F -> D)
    requires j <= |rs|
    ensures var d := Drain(rs, j, k, counter, dump);
      && Zeros(Rets(d.log)) == d.counter - counter
      && |Rets(d.log)| == d.counter - counter + 1
    decreases |rs| - j
  {
    if ReceiveAt(rs, j) != 0 {
      DrainStop(rs, j, k, counter, dump, RetOf);
      assert [ReceiveAt(rs, j)][1..] == [];
    } else {
      var rest := Drain(rs, j + 1, k, counter + 1, dump);
      DrainReceives(rs, j + 1, k, counter + 1, dump);
      DrainUnfold(rs, j, k, counter, dump);
      DrainStep(rs, j, k, counter, dump, RetOf);
      CountsAppend([0], Rets(rest.log));
      assert [0][1..] == [];
    }
  }

  // ---------------------------------------------------------------------
  // The outer loop

  /** What the inner loop of packet `i` yields: nothing when the send does
      not return 0, the drain otherwise. */
  function Inner<F, D>(ps: seq<Packet<F>>, i: nat, counter: int, dump: F -> D): LoopResult<D>
    requires i < |ps|
  {
    if ps[i].sendResult != 0 then LoopResult([], counter, false)
    else Drain(ps[i].receives, 0, i, counter, dump)
  }

  /** One step of the outer loop over a packet of stream `v`. */
  lemma {:induction false} LoopUnfold<F, D>(ps: seq<Packet<F>>, v: int, i: nat, counter: int, dump: F -> D)
    requires i < |ps| && ps[i].streamIndex == v
    ensures var d := Inner(ps, i, counter, dump);
      var rest := Loop(ps, v, i + 1, d.counter, dump);
      Loop(ps, v, i, counter, dump) ==
        LoopResult([Send(i)] + ((d.log + [Unref(i)]) + rest.log), rest.counter, rest.aborted)
  {
  }

  /** A projection of the outer loop's log over a packet of stream `v`. */
  lemma {:induction false} LoopStep<F, D, T>(ps: seq<Packet<F>>, v: int, i: nat, counter: int, dump: F -> D,
                                             f: Event<D> -> seq<T>)
    requires i < |ps| && ps[i].streamIndex == v
    ensures var d := Inner(ps, i, counter, dump);
      var rest := Loop(ps, v, i + 1, d.counter, dump);
      Project(Loop(ps, v, i, counter, dump).log, f) ==
        f(Send(i)) + ((Project(d.log, f) + f(Unref(i))) + Project(rest.log, f))
  {
    var d := Inner(ps, i, counter, dump);
    LoopUnfold(ps, v, i, counter, dump);
    ProjectPacket(i, d.log, Loop(ps, v, i + 1, d.counter, dump).log, f);
  }

  /** One step of the outer loop over a packet of another stream. */
  lemma {:induction false} LoopSkipUnfold<F, D>(ps: seq<Packet<F>>, v: int, i: nat, counter: int, dump: F -> D)
    requires i < |ps| && ps[i].streamIndex != v
    ensures var rest := Loop(ps, v, i + 1, counter, dump);
      Loop(ps, v, i, counter, dump) == LoopResult([Unref(i)] + rest.log, rest.counter, rest.aborted)
  {
  }

  /** A projection of the outer loop's log over a packet of another stream. */
  lemma {:induction false} LoopSkip<F, D, T>(ps: seq<Packet<F>>, v: int, i: nat, counter: int, dump: F -> D,
                                             f: Event<D> -> seq<T>)
    requires i < |ps| && ps[i].streamIndex != v
    ensures Project(Loop(ps, v, i, counter, dump).log, f) == f(Unref(i)) + Project(Loop(ps, v, i + 1, counter, dump).log, f)
  {
    LoopSkipUnfold(ps, v, i, counter, dump);
    ProjectSkip(i, Loop(ps, v, i + 1, counter, dump).log, f);
  }

  /** The sends, releases, frame numbers, receive codes and dumps of the
      outer loop over a packet of stream `v`. */
  lemma {:induction false} StepSends<F, D>(ps: seq<Packet<F>>, v: int, i: nat, counter: int, dump: F -> D)
    requires i < |ps| && ps[i].streamIndex == v
    ensures var d := Inner(ps, i, counter, dump);
      Sends(Loop(ps, v, i, counter, dump).log) == [i] + Sends(Loop(ps, v, i + 1, d.counter, dump).log)
  {
    if ps[i].sendResult == 0 {
      DrainPackets(ps[i].receives, 0, i, counter, dump);
    }
    LoopStep(ps, v, i, counter, dump, SendOf);
    assert SendOf<D>(Send(i)) == [i] && SendOf<D>(Unref(i)) == [];
  }

  lemma {:induction false} StepUnrefs<F, D>(ps: seq<Packet<F>>, v: int, i: nat, counter: int, dump: F -> D)
    requires i < |ps| && ps[i].streamIndex == v
    ensures var d := Inner(ps, i, counter, dump);
      Unrefs(Loop(ps, v, i, counter, dump).log) == [i] + Unrefs(Loop(ps, v, i + 1, d.counter, dump).log)
  {
    if ps[i].sendResult == 0 {
      DrainPackets(ps[i].receives, 0, i, counter, dump);
    }
    LoopStep(ps, v, i, counter, dump, UnrefOf);
    assert UnrefOf<D>(Send(i)) == [] && UnrefOf<D>(Unref(i)) == [i];
  }

  lemma {:induction false} StepNumbers<F, D>(ps: seq<Packet<F>>, v: int, i: nat, counter: int, dump: F -> D)
    requires i < |ps| && ps[i].streamIndex == v
    ensures var d := Inner(ps, i, counter, dump);
      Numbers(Loop(ps, v, i, counter, dump).log) == Numbers(d.log) + Numbers(Loop(ps, v, i + 1, d.counter, dump).log)
  {
    var d := Inner(ps, i, counter, dump);
    LoopStep(ps, v, i, counter, dump, NumberOf);
    assert NumberOf<D>(Send(i)) == [] && NumberOf<D>(Unref(i)) == [];
    assert Numbers(d.log) + [] == Numbers(d.log);
  }

  lemma {:induction false} StepRets<F, D>(ps: seq<Packet<F>>, v: int, i: nat, counter: int, dump: F -> D)
    requires i < |ps| && ps[i].streamIndex == v
    ensures var d := Inner(ps, i, counter, dump);
      Rets(Loop(ps, v, i, counter, dump).log) == Rets(d.log) + Rets(Loop(ps, v, i + 1, d.counter, dump).log)
  {
    var d := Inner(ps, i, counter, dump);
    LoopStep(ps, v, i, counter, dump, RetOf);
    assert RetOf<D>(Send(i)) == [] && RetOf<D>(Unref(i)) == [];
    assert Rets(d.log) + [] == Rets(d.log);
  }

  lemma {:induction false} StepOutputs<F, D>(ps: seq<Packet<F>>, v: int, i: nat, counter: int, dump: F -> D)
    requires i < |ps| && ps[i].streamIndex == v
    ensures var d := Inner(ps, i, counter, dump);
      Outputs(Loop(ps, v, i, counter, dump).log) == Outputs(d.log) + Outputs(Loop(ps, v, i + 1, d.counter, dump).log)
  {
    var d := Inner(ps, i, counter, dump);
    LoopStep(ps, v, i, counter, dump, OutputOf);
    assert OutputOf<D>(Send(i)) == [] && OutputOf<D>(Unref(i)) == [];
    assert Outputs(d.log) + [] == Outputs(d.log);
  }

  /** The same over a packet of another stream. */
  lemma {:induction false} SkipSends<F, D>(ps: seq<Packet<F>>, v: int, i: nat, counter: int, dump: F -> D)
    requires i < |ps| && ps[i].streamIndex != v
    ensures Sends(Loop(ps, v, i, counter, dump).log) == Sends(Loop(ps, v, i + 1, counter, dump).log)
  {
    LoopSkip(ps, v, i, counter, dump, SendOf);
    assert SendOf<D>(Unref(i)) == [];
  }

  lemma {:induction false} SkipUnrefs<F, D>(ps: seq<Packet<F>>, v: int, i: nat, counter: int, dump: F -> D)
    requires i < |ps| && ps[i].streamIndex != v
    ensures Unrefs(Loop(ps, v, i, counter, dump).log) == [i] + Unrefs(Loop(ps, v, i + 1, counter, dump).log)
  {
    LoopSkip(ps, v, i, counter, dump, UnrefOf);
    assert UnrefOf<D>(Unref(i)) == [i];
  }

  lemma {:induction false} SkipNumbers<F, D>(ps: seq<Packet<F>>, v: int, i: nat, counter: int, dump: F -> D)
    requires i < |ps| && ps[i].streamIndex != v
    ensures Numbers(Loop(ps, v, i, counter, dump).log) == Numbers(Loop(ps, v, i + 1, counter, dump).log)
  {
    LoopSkip(ps, v, i, counter, dump, NumberOf);
    assert NumberOf<D>(Unref(i)) == [];
  }

  lemma {:induction false} SkipRets<F, D>(ps: seq<Packet<F>>, v: int, i: nat, counter: int, dump: F -> D)
    requires i < |ps| && ps[i].streamIndex != v
    ensures Rets(Loop(ps, v, i, counter, dump).log) == Rets(Loop(ps, v, i + 1, counter, dump).log)
  {
    LoopSkip(ps, v, i, counter, dump, RetOf);
    assert RetOf<D>(Unref(i)) == [];
  }

  lemma {:induction false} SkipOutputs<F, D>(ps: seq<Packet<F>>, v: int, i: nat, counter: int, dump: F -> D)
    requires i < |ps| && ps[i].streamIndex != v
    ensures Outputs(Loop(ps, v, i, counter, dump).log) == Outputs(Loop(ps, v, i + 1, counter, dump).log)
  {
    LoopSkip(ps, v, i, counter, dump, OutputOf);
    assert OutputOf<D>(Unref(i)) == [];
  }

  /** The loop runs to the end of the input and releases every packet
      read, in order, whatever its stream. */
  lemma {:induction false} LoopUnrefs<F, D>(ps: seq<Packet<F>>, v: int, i: nat, counter: int, dump: F -> D)
    requires i <= |ps|
    ensures Unrefs(Loop(ps, v, i, counter, dump).log) == Range(i, |ps| - i)
    decreases |ps| - i
  {
    if i == |ps| {
      assert Range(i, 0) == [];
    } else if ps[i].streamIndex != v {
      LoopUnrefs(ps, v, i + 1, counter, dump);
      SkipUnrefs(ps, v, i, counter, dump);
      RangeCons(i, |ps| - i - 1);
    } else {
      LoopUnrefs(ps, v, i + 1, Inner(ps, i, counter, dump).counter, dump);
      StepUnrefs(ps, v, i, counter, dump);
      RangeCons(i, |ps| - i - 1);
    }
  }

  /** The loop sends exactly the packets of stream `v`, in order, whether
      or not their sends succeed. */
  lemma {:induction false} LoopSends<F, D>(ps: seq<Packet<F>>, v: int, i: nat, counter: int, dump: F -> D)
    requires i <= |ps|
    ensures Sends(Loop(ps, v, i, counter, dump).log) == Matching(ps, v, i, |ps|)
    decreases |ps| - i
  {
    if i == |ps| {
    } else if ps[i].streamIndex != v {
      LoopSends(ps, v, i + 1, counter, dump);
      SkipSends(ps, v, i, counter, dump);
    } else {
      LoopSends(ps, v, i + 1, Inner(ps, i, counter, dump).counter, dump);
      StepSends(ps, v, i, counter, dump);
    }
  }

  /** Nothing in the loop ends the process; frames are numbered `counter,
      counter + 1, ...` in the order they are received. */
  lemma {:induction false} LoopNumbering<F, D>(ps: seq<Packet<F>>, v: int, i: nat, counter: int, dump: F -> D)
    requires i <= |ps|
    ensures var r := Loop(ps, v, i, counter, dump);
      && !r.aborted
      && r.counter >= counter
      && Numbers(r.log) == Range(counter, r.counter - counter)
    decreases |ps| - i
  {
    if i == |ps| {
      assert Range(counter, 0) == [];
    } else if ps[i].streamIndex != v {
      LoopNumbering(ps, v, i + 1, counter, dump);
      SkipNumbers(ps, v, i, counter, dump);
      LoopSkipUnfold(ps, v, i, counter, dump);
    } else {
      var d := Inner(ps, i, counter, dump);
      if ps[i].sendResult == 0 {
        DrainNumbering(ps[i].receives, 0, i, counter, dump);
      }
      var rest := Loop(ps, v, i + 1, d.counter, dump);
      LoopNumbering(ps, v, i + 1, d.counter, dump);
      StepNumbers(ps, v, i, counter, dump);
      LoopUnfold(ps, v, i, counter, dump);
      RangeJoin(Numbers(d.log), Numbers(rest.log), counter, d.counter, rest.counter);
    }
  }

  /** The counter ends at its start value plus the number of receive calls
      that returned 0. */
  lemma {:induction false} LoopZeros<F, D>(ps: seq<Packet<F>>, v: int, i: nat, counter: int, dump: F -> D)
    requires i <= |ps|
    ensures var r := Loop(ps, v, i, counter, dump);
      Zeros(Rets(r.log)) == r.counter - counter
    decreases |ps| - i
  {
    if i == |ps| {
    } else if ps[i].streamIndex != v {
      LoopZeros(ps, v, i + 1, counter, dump);
      SkipRets(ps, v, i, counter, dump);
      LoopSkipUnfold(ps, v, i, counter, dump);
    } else {
      var d := Inner(ps, i, counter, dump);
      if ps[i].sendResult == 0 {
        DrainReceives(ps[i].receives, 0, i, counter, dump);
      }
      var rest := Loop(ps, v, i + 1, d.counter, dump);
      LoopZeros(ps, v, i + 1, d.counter, dump);
      StepRets(ps, v, i, counter, dump);
      LoopUnfold(ps, v, i, counter, dump);
      CountsAppend(Rets(d.log), Rets(rest.log));
    }
  }

  /** Every picture the decoder hands out is dumped exactly once, in order. */
  lemma {:induction false} LoopOutputs<F, D>(ps: seq<Packet<F>>, v: int, i: nat, counter: int, dump: F -> D)
    requires i <= |ps|
    ensures Outputs(Loop(ps, v, i, counter, dump).log) == MapDump(Decoded(ps, v, i), dump)
    decreases |ps| - i
  {
    if i == |ps| {
    } else if ps[i].streamIndex != v {
      LoopOutputs(ps, v, i + 1, counter, dump);
      SkipOutputs(ps, v, i, counter, dump);
    } else if ps[i].sendResult != 0 {
      LoopOutputs(ps, v, i + 1, counter, dump);
      StepOutputs(ps, v, i, counter, dump);
    } else {
      var rs := ps[i].receives;
      var d := Drain(rs, 0, i, counter, dump);
      DrainOutputs(rs, 0, i, counter, dump);
      LoopOutputs(ps, v, i + 1, d.counter, dump);
      StepOutputs(ps, v, i, counter, dump);
      MapDumpAppend(Pictures(rs, 0, FirstNonZero(rs, 0)), Decoded(ps, v, i + 1), dump);
    }
  }

  /** Frames are received only after a packet of stream `v` was sent with
      result 0: every receive call is attributed to such a packet. */
  lemma {:induction false} LoopReceives<F, D>(ps: seq<Packet<F>>, v: int, i: nat, counter: int, dump: F -> D)
    requires i <= |ps|
    ensures forall e :: e in Loop(ps, v, i, counter, dump).log && e.Receive? ==>
              i <= e.packet < |ps| && ps[e.packet].streamIndex == v && ps[e.packet].sendResult == 0
    decreases |ps| - i
  {
    if i == |ps| {
    } else if ps[i].streamIndex != v {
      LoopSkipUnfold(ps, v, i, counter, dump);
      LoopReceives(ps, v, i + 1, counter, dump);
    } else {
      var d := Inner(ps, i, counter, dump);
      if ps[i].sendResult == 0 {
        DrainPackets(ps[i].receives, 0, i, counter, dump);
      }
      LoopUnfold(ps, v, i, counter, dump);
      LoopReceives(ps, v, i + 1, d.counter, dump);
    }
  }

  // ---------------------------------------------------------------------
  // The whole run

  /** The log of a run that reaches the packet loop: the loop's log, then the close. */
  lemma {:induction false} FinishedLog<F, D>(setup: Setup, v: int, ps: seq<Packet<F>>, dump: F -> D)
    requires PixelRun(setup, v, ps, dump).ending == Finished
    ensures v != -1 && PixelRun(setup, v, ps, dump).log == Loop(ps, v, 0, 0, dump).log + [CloseInput]
  {
  }

  /** The close adds nothing to the projections. */
  lemma {:induction false} TailProjections<D>(log: seq<Event<D>>)
    ensures var full := log + [CloseInput];
      && Sends(full) == Sends(log) && Unrefs(full) == Unrefs(log)
      && Numbers(full) == Numbers(log) && Rets(full) == Rets(log) && Outputs(full) == Outputs(log)
  {
    var close: Event<D> := CloseInput;
    ProjectAppend(log, [close], SendOf);
    ProjectAppend(log, [close], UnrefOf);
    ProjectAppend(log, [close], NumberOf);
    ProjectAppend(log, [close], RetOf);
    ProjectAppend(log, [close], OutputOf);
    ProjectSingle(close, SendOf);
    ProjectSingle(close, UnrefOf);
    ProjectSingle(close, NumberOf);
    ProjectSingle(close, RetOf);
    ProjectSingle(close, OutputOf);
    assert Sends(log) + [] == Sends(log) && Unrefs(log) + [] == Unrefs(log);
    assert Numbers(log) + [] == Numbers(log) && Rets(log) + [] == Rets(log);
    assert Outputs(log) + [] == Outputs(log);
  }

  /** A run that reaches the packet loop goes on to the end of the input
      and then closes it; every packet read is released and exactly the
      packets of stream `v` are sent; frames are numbered 0, 1, ... in
      receive order, one per receive call that returned 0, and what is
      printed for them is the dump of each frame the decoder handed out,
      once each and in order. */
  lemma {:induction false} PixelRunFinished<F, D>(setup: Setup, v: int, ps: seq<Packet<F>>, dump: F -> D)
    requires PixelRun(setup, v, ps, dump).ending == Finished
    ensures var run := PixelRun(setup, v, ps, dump);
      && v != -1
      && |run.log| >= 1 && run.log[|run.log| - 1] == CloseInput
      && Unrefs(run.log) == Range(0, |ps|)
      && Sends(run.log) == Matching(ps, v, 0, |ps|)
      && Numbers(run.log) == Range(0, Zeros(Rets(run.log)))
      && Outputs(run.log) == MapDump(Decoded(ps, v, 0), dump)
  {
    var r := Loop(ps, v, 0, 0, dump);
    FinishedLog(setup, v, ps, dump);
    LoopUnrefs(ps, v, 0, 0, dump);
    LoopSends(ps, v, 0, 0, dump);
    LoopNumbering(ps, v, 0, 0, dump);
    LoopZeros(ps, v, 0, 0, dump);
    LoopOutputs(ps, v, 0, 0, dump);
    TailProjections(r.log);
  }

  /** Before the packet loop, each failing setup call that the program
      checks ends the run with its own ending, and the input is closed
      exactly when it was opened; no packet is read. Conversely, a run that
      does not reach the end of the input stopped at such a call. */
  lemma {:induction false} PixelRunSetupFailures<F, D>(setup: Setup, v: int, ps: seq<Packet<F>>, dump: F -> D)
    ensures var run := PixelRun(setup, v, ps, dump);
      && (setup.openInput < 0 ==> run == Run([], OpenFailed))
      && (setup.openInput >= 0 && setup.findStreamInfo < 0 ==> run == Run([CloseInput], NoStreamInfo))
      && (setup.openInput >= 0 && setup.findStreamInfo >= 0 && v == -1 ==> run == Run([CloseInput], NoVideoStream))
      && (setup.openInput >= 0 && setup.findStreamInfo >= 0 && v != -1 && !setup.decoderFound ==>
            run == Run([CloseInput], UnsupportedCodec))
      && (setup.openInput >= 0 && setup.findStreamInfo >= 0 && v != -1 && setup.decoderFound && setup.openCodec < 0 ==>
            run == Run([CloseInput], CodecOpenFailed))
      && (run.ending != Finished ==>
            && (run.ending == OpenFailed <==> setup.openInput < 0)
            && (run.ending == OpenFailed ==> run.log == [])
            && (run.ending != OpenFailed ==> run.log == [CloseInput])
            && (setup.openInput >= 0 && setup.findStreamInfo >= 0 && v != -1 && setup.decoderFound ==>
                  setup.openCodec < 0))
  {
  }
}
