/** read_h264.cpp: open a container, pick its first video stream, feed every
    packet of that stream to the decoder, drain the decoder after each
    packet, number and classify each decoded frame, and print the total.

    The decoder's frames carry their `pict_type` (the frame type `F` is
    `int`); the printout of a frame is its number and its label. */
module ReadH264 {
  import opened Media
  import opened StreamSelect
  import opened PictureType

  datatype Check = Continue | Exit(status: int)

  /** `check_error(err)`: nothing for a non-negative code, `exit(1)` otherwise. */
  function CheckError(err: int): (c: Check)
    ensures c == Continue <==> err >= 0
    ensures c != Continue ==> c == Exit(1)
  {
    if err < 0 then Exit(1) else Continue
  }

  // ---------------------------------------------------------------------
  // Specification of the packet loop

  /** The inner `while (true)` after packet `k` was sent, from the `j`-th
      receive call on, with the counter at `counter`. EAGAIN and EOF end it
      quietly, any other negative code ends it with "Error during decoding",
      and every other code counts and reports a frame. */
  function Drain(rs: seq<Response<int>>, j: nat, k: nat, counter: int): LoopResult<Label>
    decreases |rs| - j
  {
    var ret := ReceiveAt(rs, j);
    if ret == AVERROR_EAGAIN || ret == AVERROR_EOF then LoopResult([Receive(k, ret)], counter, false)
    else if ret < 0 then LoopResult([Receive(k, ret), DecodeError], counter, false)
    else Then([Receive(k, ret), Report(counter + 1, Classify(rs[j].frame))], Drain(rs, j + 1, k, counter + 1))
  }

  /** The outer `while (av_read_frame(...) >= 0)` from packet `i` on. A
      packet of another stream is only released; a packet of the video
      stream is sent, and a failing send exits the process. */
  function Loop(ps: seq<Packet<int>>, v: int, i: nat, counter: int): LoopResult<Label>
    decreases |ps| - i, 1
  {
    if i >= |ps| then LoopResult([], counter, false)
    else if ps[i].streamIndex != v then Then([Unref(i)], Loop(ps, v, i + 1, counter))
    else if CheckError(ps[i].sendResult).Exit? then LoopResult([Send(i)], counter, true)
    else Then([Send(i)], AfterDrain(ps, v, i, Drain(ps[i].receives, 0, i, counter)))
  }

  /** What follows the inner loop of packet `i`: its log, the release of
      the packet, then the rest of the outer loop. */
  function AfterDrain(ps: seq<Packet<int>>, v: int, i: nat, d: LoopResult<Label>): LoopResult<Label>
    requires i < |ps|
    decreases |ps| - i, 0
  {
    Then(d.log + [Unref(i)], Loop(ps, v, i + 1, d.counter))
  }

  /** The whole of `read_h264_video`. */
  function H264Run(setup: Setup, types: seq<MediaType>, ps: seq<Packet<int>>): Run<Label>
  {
    if CheckError(setup.openInput).Exit? then Run([], Exited(1))
    else if CheckError(setup.findStreamInfo).Exit? then Run([], Exited(1))
    else
      var v := FirstVideoIndex(types);
      if v == -1 then Run([CloseInput], NoVideoStream)
      else if !setup.decoderFound then Run([CloseInput], UnsupportedCodec)
      else if CheckError(setup.parametersToContext).Exit? then Run([], Exited(1))
      else if CheckError(setup.openCodec).Exit? then Run([], Exited(1))
      else if !setup.framesAllocated then Run([CloseInput], AllocationFailed)
      else
        var r := Loop(ps, v, 0, 0);
        if r.aborted then Run(r.log, Exited(1))
        else Run(r.log + [Total(r.counter), CloseInput], Finished)
  }

  // ---------------------------------------------------------------------
  // The program

  /** The inner `while (true)` of `read_h264_video` for packet `k`:
      receive frames until the decoder answers a negative code, counting
      and reporting each frame. */
  method ReceiveFrames(rs: seq<Response<int>>, k: nat, counter: int)
    returns (log: seq<Event<Label>>, frameCounter: int)
    ensures LoopResult(log, frameCounter, false) == Drain(rs, 0, k, counter)
  {
    log, frameCounter := [], counter;
    var j := 0;
    while true
      invariant 0 <= j <= |rs|
      invariant Drain(rs, 0, k, counter) == Then(log, Drain(rs, j, k, frameCounter))
      decreases |rs| - j
    {
      var ret := ReceiveAt(rs, j);
      if ret == AVERROR_EAGAIN || ret == AVERROR_EOF {
        log := log + [Receive(k, ret)];
        break;
      } else if ret < 0 {
        log := log + [Receive(k, ret), DecodeError];
        break;
      }
      ThenAssoc(log, [Receive(k, ret), Report(frameCounter + 1, Classify(rs[j].frame))],
                Drain(rs, j + 1, k, frameCounter + 1));
      frameCounter := frameCounter + 1;
      log := log + [Receive(k, ret), Report(frameCounter, Classify(rs[j].frame))];
      j := j + 1;
    }
  }

  /** The read / send / receive loop of `read_h264_video`, with `frameCounter`. */
  method DecodeLoop(ps: seq<Packet<int>>, videoStreamIndex: int)
    returns (log: seq<Event<Label>>, frameCounter: int, aborted: bool)
    ensures LoopResult(log, frameCounter, aborted) == Loop(ps, videoStreamIndex, 0, 0)
  {
    log, frameCounter, aborted := [], 0, false;
    var i := 0;
    while i < |ps|
      invariant 0 <= i <= |ps|
      invariant Loop(ps, videoStreamIndex, 0, 0) == Then(log, Loop(ps, videoStreamIndex, i, frameCounter))
    {
      var packet := ps[i];
      if packet.streamIndex == videoStreamIndex {
        if CheckError(packet.sendResult).Exit? {
          log := log + [Send(i)];
          aborted := true;
          return;
        }
        var frames, counter := ReceiveFrames(packet.receives, i, frameCounter);
        var rest := Loop(ps, videoStreamIndex, i + 1, counter);
        ThenAssoc([Send(i)], frames + [Unref(i)], rest);
        ThenAssoc(log, [Send(i)] + (frames + [Unref(i)]), rest);
        log, frameCounter := log + ([Send(i)] + (frames + [Unref(i)])), counter;
      } else {
        ThenAssoc(log, [Unref(i)], Loop(ps, videoStreamIndex, i + 1, frameCounter));
        log := log + [Unref(i)];
      }
      i := i + 1;
    }
  }

  /** `read_h264_video`: setup, stream selection, the packet loop, the total. */
  method ReadH264Video(setup: Setup, types: seq<MediaType>, ps: seq<Packet<int>>) returns (run: Run<Label>)
    ensures run == H264Run(setup, types, ps)
  {
    if CheckError(setup.openInput).Exit? || CheckError(setup.findStreamInfo).Exit? {
      return Run([], Exited(1));
    }
    var videoStreamIndex := FindVideoStream(types);
    if videoStreamIndex == -1 {
      return Run([CloseInput], NoVideoStream);
    }
    if !setup.decoderFound {
      return Run([CloseInput], UnsupportedCodec);
    }
    if CheckError(setup.parametersToContext).Exit? || CheckError(setup.openCodec).Exit? {
      return Run([], Exited(1));
    }
    if !setup.framesAllocated {
      return Run([CloseInput], AllocationFailed);
    }
    var log, frameCounter, aborted := DecodeLoop(ps, videoStreamIndex);
    if aborted {
      return Run(log, Exited(1));
    }
    run := Run(log + [Total(frameCounter), CloseInput], Finished);
  }

  // ---------------------------------------------------------------------
  // Properties

  /** Position of the first receive answer, from `j` on, that ends the
      inner loop (a negative code), or `|rs|` when the answers run out. */
  function FirstNegative(rs: seq<Response<int>>, j: nat): (n: nat)
    requires j <= |rs|
    ensures j <= n <= |rs|
    ensures forall m :: j <= m < n ==> rs[m].ret >= 0
    ensures n < |rs| ==> rs[n].ret < 0
    decreases |rs| - j
  {
    if j == |rs| || rs[j].ret < 0 then j else FirstNegative(rs, j + 1)
  }

  /** The codes of the answers `j .. n - 1`, in order. */
  function Codes(rs: seq<Response<int>>, j: nat, n: nat): seq<int>
    requires j <= n <= |rs|
    decreases n - j
  {
    if j == n then [] else [rs[j].ret] + Codes(rs, j + 1, n)
  }

  /** The labels of the pictures of the answers `j .. n - 1`, in order. */
  function Labels(rs: seq<Response<int>>, j: nat, n: nat): seq<Label>
    requires j <= n <= |rs|
    decreases n - j
  {
    if j == n then [] else [Classify(rs[j].frame)] + Labels(rs, j + 1, n)
  }

  /** The labels printed for the packets from `i` on, up to the first video
      packet whose send fails: for each video packet, the labels of the
      pictures answered before the first negative code, in order. */
  function Classified(ps: seq<Packet<int>>, v: int, i: nat): seq<Label>
    requires i <= |ps|
    decreases |ps| - i
  {
    if i == |ps| then []
    else if ps[i].streamIndex != v then Classified(ps, v, i + 1)
    else if ps[i].sendResult < 0 then []
    else
      var rs := ps[i].receives;
      Labels(rs, 0, FirstNegative(rs, 0)) + Classified(ps, v, i + 1)
  }

  /** The last receive call of the inner loop, which answers a negative
      code: "Error during decoding" follows unless the code is EAGAIN or
      EOF. */
  lemma {:induction false} DrainStop<T>(rs: seq<Response<int>>, j: nat, k: nat, counter: int, f: Event<Label> -> seq<T>)
    requires ReceiveAt(rs, j) < 0
    ensures var d, ret := Drain(rs, j, k, counter), ReceiveAt(rs, j);
      && d.counter == counter && !d.aborted
      && (DecodeError in d.log <==> ret != AVERROR_EAGAIN && ret != AVERROR_EOF)
      && (forall e :: e in d.log && e.Receive? ==> e.packet == k)
      && Project(d.log, f) == f(Receive(k, ret)) + (if ret == AVERROR_EAGAIN || ret == AVERROR_EOF then [] else f(DecodeError))
  {
    var ret := ReceiveAt(rs, j);
    if ret == AVERROR_EAGAIN || ret == AVERROR_EOF {
      ProjectSingle(Receive(k, ret), f);
    } else {
      ProjectPair(Receive(k, ret), DecodeError, f);
    }
  }

  /** One successful receive call of the inner loop: the frame is counted
      and reported, and the loop goes on. */
  lemma {:induction false} DrainUnfold(rs: seq<Response<int>>, j: nat, k: nat, counter: int)
    requires j < |rs| && rs[j].ret >= 0
    ensures var d, rest := Drain(rs, j, k, counter), Drain(rs, j + 1, k, counter + 1);
      && d.counter == rest.counter && d.aborted == rest.aborted
      && d.log == [Receive(k, rs[j].ret), Report(counter + 1, Classify(rs[j].frame))] + rest.log
  {
  }

  /** A projection of the log of one successful receive call and what follows it. */
  lemma {:induction false} DrainStep<T>(rs: seq<Response<int>>, j: nat, k: nat, counter: int, f: Event<Label> -> seq<T>)
    requires j < |rs| && rs[j].ret >= 0
    ensures var d, rest := Drain(rs, j, k, counter), Drain(rs, j + 1, k, counter + 1);
      Project(d.log, f) == (f(Receive(k, rs[j].ret)) + f(Report(counter + 1, Classify(rs[j].frame)))) + Project(rest.log, f)
  {
    var head := [Receive(k, rs[j].ret), Report(counter + 1, Classify(rs[j].frame))];
    DrainUnfold(rs, j, k, counter);
    ProjectPair(head[0], head[1], f);
    ProjectAppend(head, Drain(rs, j + 1, k, counter + 1).log, f);
  }

  /** The inner loop never exits the process, and it reports exactly the
      frames answered before the first negative code, numbered on from the
      counter, which it leaves at its value plus their number. */
  lemma {:induction false} DrainNumbering(rs: seq<Response<int>>, j: nat, k: nat, counter: int)
    requires j <= |rs|
    ensures var d, n := Drain(rs, j, k, counter), FirstNegative(rs, j);
      && !d.aborted
      && d.counter == counter + (n - j)
      && Numbers(d.log) == Range(counter + 1, n - j)
    decreases |rs| - j
  {
    if ReceiveAt(rs, j) < 0 {
      DrainStop(rs, j, k, counter, NumberOf);
    } else {
      var n := FirstNegative(rs, j);
      DrainNumbering(rs, j + 1, k, counter + 1);
      DrainUnfold(rs, j, k, counter);
      DrainStep(rs, j, k, counter, NumberOf);
      RangeSplit(counter + 1, 1, n - j - 1);
    }
  }

  /** What the inner loop prints for each frame is the label of the frame
      the decoder answered, in receive order. */
  lemma {:induction false} DrainOutputs(rs: seq<Response<int>>, j: nat, k: nat, counter: int)
    requires j <= |rs|
    ensures var d, n := Drain(rs, j, k, counter), FirstNegative(rs, j);
      Outputs(d.log) == Labels(rs, j, n)
    decreases |rs| - j
  {
    if ReceiveAt(rs, j) < 0 {
      DrainStop(rs, j, k, counter, OutputOf);
    } else {
      var n := FirstNegative(rs, j);
      DrainOutputs(rs, j + 1, k, counter + 1);
      DrainStep(rs, j, k, counter, OutputOf);
    }
  }

  /** The inner loop's receive calls answer the codes up to and including
      the first negative one. */
  lemma {:induction false} DrainReceives(rs: seq<Response<int>>, j: nat, k: nat, counter: int)
    requires j <= |rs|
    ensures var d, n := Drain(rs, j, k, counter), FirstNegative(rs, j);
      Rets(d.log) == Codes(rs, j, n) + [ReceiveAt(rs, n)]
    decreases |rs| - j
  {
    var ret := ReceiveAt(rs, j);
    if ret < 0 {
      DrainStop(rs, j, k, counter, RetOf);
    } else {
      var n := FirstNegative(rs, j);
      DrainReceives(rs, j + 1, k, counter + 1);
      DrainStep(rs, j, k, counter, RetOf);
      var later := Codes(rs, j + 1, n);
      assert Rets(Drain(rs, j, k, counter).log) == [ret] + (later + [ReceiveAt(rs, n)]);
    }
  }

  /** The inner loop prints "Error during decoding" exactly when the code
      that ends it is neither EAGAIN nor EOF. */
  lemma {:induction false} DrainDecodeError(rs: seq<Response<int>>, j: nat, k: nat, counter: int)
    requires j <= |rs|
    ensures var d, n := Drain(rs, j, k, counter), FirstNegative(rs, j);
      DecodeError in d.log <==> ReceiveAt(rs, n) != AVERROR_EAGAIN && ReceiveAt(rs, n) != AVERROR_EOF
    decreases |rs| - j
  {
    if ReceiveAt(rs, j) < 0 {
      DrainStop(rs, j, k, counter, RetOf);
    } else {
      DrainDecodeError(rs, j + 1, k, counter + 1);
      DrainUnfold(rs, j, k, counter);
    }
  }

  /** The inner loop sends and releases nothing, and every receive call in
      it is attributed to the packet it drains. */
  lemma {:induction false} DrainPackets(rs: seq<Response<int>>, j: nat, k: nat, counter: int)
    requires j <= |rs|
    ensures var d := Drain(rs, j, k, counter);
      && Sends(d.log) == [] && Unrefs(d.log) == []
      && (forall e :: e in d.log && e.Receive? ==> e.packet == k)
    decreases |rs| - j
  {
    if ReceiveAt(rs, j) < 0 {
      DrainStop(rs, j, k, counter, SendOf);
      DrainStop(rs, j, k, counter, UnrefOf);
    } else {
      DrainPackets(rs, j + 1, k, counter + 1);
      DrainUnfold(rs, j, k, counter);
      DrainStep(rs, j, k, counter, SendOf);
      DrainStep(rs, j, k, counter, UnrefOf);
    }
  }

  /** The inner loop advances the counter once per non-negative code. */
  lemma {:induction false} DrainSuccesses(rs: seq<Response<int>>, j: nat, k: nat, counter: int)
    requires j <= |rs|
    ensures var d := Drain(rs, j, k, counter);
      NonNegatives(Rets(d.log)) == d.counter - counter
  {
    var n := FirstNegative(rs, j);
    DrainNumbering(rs, j, k, counter);
    DrainReceives(rs, j, k, counter);
    NonNegativeLeading(rs, j, n, ReceiveAt(rs, n));
  }

  lemma {:induction false} NonNegativeLeading(rs: seq<Response<int>>, j: nat, n: nat, stop: int)
    requires j <= n <= |rs|
    requires forall m :: j <= m < n ==> rs[m].ret >= 0
    requires stop < 0
    ensures NonNegatives(Codes(rs, j, n) + [stop]) == n - j
    decreases n - j
  {
    if j == n {
      assert [stop][1..] == [];
    } else {
      assert (Codes(rs, j, n) + [stop])[1..] == Codes(rs, j + 1, n) + [stop];
      NonNegativeLeading(rs, j + 1, n, stop);
    }
  }


  /** Position of the first packet, from `i` on, that belongs to stream `v`
      and whose send fails (so that `check_error` exits), or `|ps|`. */
  function FirstFatal(ps: seq<Packet<int>>, v: int, i: nat): (n: nat)
    requires i <= |ps|
    ensures i <= n <= |ps|
    ensures forall m :: i <= m < n ==> ps[m].streamIndex != v || ps[m].sendResult >= 0
    ensures n < |ps| ==> ps[n].streamIndex == v && ps[n].sendResult < 0
    decreases |ps| - i
  {
    if i == |ps| || (ps[i].streamIndex == v && ps[i].sendResult < 0) then i
    else FirstFatal(ps, v, i + 1)
  }

  /** One step of the outer loop over a packet of the video stream that
      was sent successfully. */
  lemma {:induction false} LoopUnfold(ps: seq<Packet<int>>, v: int, i: nat, counter: int)
    requires i < |ps| && ps[i].streamIndex == v && ps[i].sendResult >= 0
    ensures var d := Drain(ps[i].receives, 0, i, counter);
      var rest := Loop(ps, v, i + 1, d.counter);
      Loop(ps, v, i, counter) == LoopResult([Send(i)] + ((d.log + [Unref(i)]) + rest.log), rest.counter, rest.aborted)
  {
  }

  /** A projection of the outer loop's log over a packet of the video
      stream that was sent successfully. */
  lemma {:induction false} LoopStep<T>(ps: seq<Packet<int>>, v: int, i: nat, counter: int, f: Event<Label> -> seq<T>)
    requires i < |ps| && ps[i].streamIndex == v && ps[i].sendResult >= 0
    ensures var d := Drain(ps[i].receives, 0, i, counter);
      var r, rest := Loop(ps, v, i, counter), Loop(ps, v, i + 1, d.counter);
      && r.counter == rest.counter && r.aborted == rest.aborted
      && Project(r.log, f) == f(Send(i)) + ((Project(d.log, f) + f(Unref(i))) + Project(rest.log, f))
  {
    var d := Drain(ps[i].receives, 0, i, counter);
    LoopUnfold(ps, v, i, counter);
    ProjectPacket(i, d.log, Loop(ps, v, i + 1, d.counter).log, f);
  }

  /** One step of the outer loop over a packet of another stream. */
  lemma {:induction false} LoopSkipUnfold(ps: seq<Packet<int>>, v: int, i: nat, counter: int)
    requires i < |ps| && ps[i].streamIndex != v
    ensures var rest := Loop(ps, v, i + 1, counter);
      Loop(ps, v, i, counter) == LoopResult([Unref(i)] + rest.log, rest.counter, rest.aborted)
  {
  }

  /** A projection of the outer loop's log over a packet of another stream. */
  lemma {:induction false} LoopSkip<T>(ps: seq<Packet<int>>, v: int, i: nat, counter: int, f: Event<Label> -> seq<T>)
    requires i < |ps| && ps[i].streamIndex != v
    ensures var r, rest := Loop(ps, v, i, counter), Loop(ps, v, i + 1, counter);
      && r.counter == rest.counter && r.aborted == rest.aborted
      && Project(r.log, f) == f(Unref(i)) + Project(rest.log, f)
  {
    LoopSkipUnfold(ps, v, i, counter);
    ProjectSkip(i, Loop(ps, v, i + 1, counter).log, f);
  }

  /** The outer loop's log at a packet of the video stream whose send fails. */
  lemma {:induction false} LoopFatal<T>(ps: seq<Packet<int>>, v: int, i: nat, counter: int, f: Event<Label> -> seq<T>)
    requires i < |ps| && ps[i].streamIndex == v && ps[i].sendResult < 0
    ensures var r := Loop(ps, v, i, counter);
      r.counter == counter && r.aborted && Project(r.log, f) == f(Send(i))
  {
    ProjectSingle(Send(i), f);
  }

  /** The sends, releases, frame numbers and receive codes of the outer
      loop over a packet of the video stream that was sent successfully. */
  lemma {:induction false} StepSends(ps: seq<Packet<int>>, v: int, i: nat, counter: int)
    requires i < |ps| && ps[i].streamIndex == v && ps[i].sendResult >= 0
    ensures var d := Drain(ps[i].receives, 0, i, counter);
      Sends(Loop(ps, v, i, counter).log) == [i] + Sends(Loop(ps, v, i + 1, d.counter).log)
  {
    DrainPackets(ps[i].receives, 0, i, counter);
    LoopStep(ps, v, i, counter, SendOf);
    assert SendOf<Label>(Send(i)) == [i] && SendOf<Label>(Unref(i)) == [];
  }

  lemma {:induction false} StepUnrefs(ps: seq<Packet<int>>, v: int, i: nat, counter: int)
    requires i < |ps| && ps[i].streamIndex == v && ps[i].sendResult >= 0
    ensures var d := Drain(ps[i].receives, 0, i, counter);
      Unrefs(Loop(ps, v, i, counter).log) == [i] + Unrefs(Loop(ps, v, i + 1, d.counter).log)
  {
    DrainPackets(ps[i].receives, 0, i, counter);
    LoopStep(ps, v, i, counter, UnrefOf);
    assert UnrefOf<Label>(Send(i)) == [] && UnrefOf<Label>(Unref(i)) == [i];
  }

  lemma {:induction false} StepNumbers(ps: seq<Packet<int>>, v: int, i: nat, counter: int)
    requires i < |ps| && ps[i].streamIndex == v && ps[i].sendResult >= 0
    ensures var d := Drain(ps[i].receives, 0, i, counter);
      Numbers(Loop(ps, v, i, counter).log) == Numbers(d.log) + Numbers(Loop(ps, v, i + 1, d.counter).log)
  {
    var d := Drain(ps[i].receives, 0, i, counter);
    LoopStep(ps, v, i, counter, NumberOf);
    assert NumberOf<Label>(Send(i)) == [] && NumberOf<Label>(Unref(i)) == [];
    assert Numbers(d.log) + [] == Numbers(d.log);
  }

  lemma {:induction false} StepRets(ps: seq<Packet<int>>, v: int, i: nat, counter: int)
    requires i < |ps| && ps[i].streamIndex == v && ps[i].sendResult >= 0
    ensures var d := Drain(ps[i].receives, 0, i, counter);
      Rets(Loop(ps, v, i, counter).log) == Rets(d.log) + Rets(Loop(ps, v, i + 1, d.counter).log)
  {
    var d := Drain(ps[i].receives, 0, i, counter);
    LoopStep(ps, v, i, counter, RetOf);
    assert RetOf<Label>(Send(i)) == [] && RetOf<Label>(Unref(i)) == [];
    assert Rets(d.log) + [] == Rets(d.log);
  }

  /** The sends, releases, frame numbers and receive codes of the outer
      loop over a packet of another stream. */
  lemma {:induction false} SkipSends(ps: seq<Packet<int>>, v: int, i: nat, counter: int)
    requires i < |ps| && ps[i].streamIndex != v
    ensures Sends(Loop(ps, v, i, counter).log) == Sends(Loop(ps, v, i + 1, counter).log)
  {
    LoopSkip(ps, v, i, counter, SendOf);
    assert SendOf<Label>(Unref(i)) == [];
  }

  lemma {:induction false} SkipUnrefs(ps: seq<Packet<int>>, v: int, i: nat, counter: int)
    requires i < |ps| && ps[i].streamIndex != v
    ensures Unrefs(Loop(ps, v, i, counter).log) == [i] + Unrefs(Loop(ps, v, i + 1, counter).log)
  {
    LoopSkip(ps, v, i, counter, UnrefOf);
    assert UnrefOf<Label>(Unref(i)) == [i];
  }

  lemma {:induction false} SkipNumbers(ps: seq<Packet<int>>, v: int, i: nat, counter: int)
    requires i < |ps| && ps[i].streamIndex != v
    ensures Numbers(Loop(ps, v, i, counter).log) == Numbers(Loop(ps, v, i + 1, counter).log)
  {
    LoopSkip(ps, v, i, counter, NumberOf);
    assert NumberOf<Label>(Unref(i)) == [];
  }

  lemma {:induction false} StepOutputs(ps: seq<Packet<int>>, v: int, i: nat, counter: int)
    requires i < |ps| && ps[i].streamIndex == v && ps[i].sendResult >= 0
    ensures var d := Drain(ps[i].receives, 0, i, counter);
      Outputs(Loop(ps, v, i, counter).log) == Outputs(d.log) + Outputs(Loop(ps, v, i + 1, d.counter).log)
  {
    var d := Drain(ps[i].receives, 0, i, counter);
    LoopStep(ps, v, i, counter, OutputOf);
    assert OutputOf<Label>(Send(i)) == [] && OutputOf<Label>(Unref(i)) == [];
    assert Outputs(d.log) + [] == Outputs(d.log);
  }

  lemma {:induction false} SkipOutputs(ps: seq<Packet<int>>, v: int, i: nat, counter: int)
    requires i < |ps| && ps[i].streamIndex != v
    ensures Outputs(Loop(ps, v, i, counter).log) == Outputs(Loop(ps, v, i + 1, counter).log)
  {
    LoopSkip(ps, v, i, counter, OutputOf);
    assert OutputOf<Label>(Unref(i)) == [];
  }

  lemma {:induction false} SkipRets(ps: seq<Packet<int>>, v: int, i: nat, counter: int)
    requires i < |ps| && ps[i].streamIndex != v
    ensures Rets(Loop(ps, v, i, counter).log) == Rets(Loop(ps, v, i + 1, counter).log)
  {
    LoopSkip(ps, v, i, counter, RetOf);
    assert RetOf<Label>(Unref(i)) == [];
  }

  /** The process exits inside the loop exactly when a packet of the video
      stream fails to send. */
  lemma {:induction false} LoopAborts(ps: seq<Packet<int>>, v: int, i: nat, counter: int)
    requires i <= |ps|
    ensures Loop(ps, v, i, counter).aborted <==> FirstFatal(ps, v, i) < |ps|
    decreases |ps| - i
  {
    if i == |ps| {
    } else if ps[i].streamIndex != v {
      LoopSkipUnfold(ps, v, i, counter);
      LoopAborts(ps, v, i + 1, counter);
    } else if ps[i].sendResult < 0 {
    } else {
      var d := Drain(ps[i].receives, 0, i, counter);
      LoopUnfold(ps, v, i, counter);
      LoopAborts(ps, v, i + 1, d.counter);
    }
  }

  /** Every packet read before the one whose send fails (or every packet,
      when none fails) is released, whatever its stream, in read order. */
  lemma {:induction false} LoopUnrefs(ps: seq<Packet<int>>, v: int, i: nat, counter: int)
    requires i <= |ps|
    ensures Unrefs(Loop(ps, v, i, counter).log) == Range(i, FirstFatal(ps, v, i) - i)
    decreases |ps| - i
  {
    var n := FirstFatal(ps, v, i);
    if i == |ps| {
      assert Range(i, 0) == [];
      assert Unrefs(Loop(ps, v, i, counter).log) == Range(i, n - i);
    } else if ps[i].streamIndex != v {
      var rest := Loop(ps, v, i + 1, counter);
      LoopUnrefs(ps, v, i + 1, counter);
      SkipUnrefs(ps, v, i, counter);
      assert FirstFatal(ps, v, i + 1) == n;
      RangeCons(i, n - i - 1);
      assert Unrefs(Loop(ps, v, i, counter).log) == Range(i, n - i);
    } else if ps[i].sendResult < 0 {
      LoopFatal(ps, v, i, counter, UnrefOf);
      assert UnrefOf<Label>(Send(i)) == [] && Range(i, 0) == [];
      assert Unrefs(Loop(ps, v, i, counter).log) == Range(i, n - i);
    } else {
      var d := Drain(ps[i].receives, 0, i, counter);
      var rest := Loop(ps, v, i + 1, d.counter);
      LoopUnrefs(ps, v, i + 1, d.counter);
      StepUnrefs(ps, v, i, counter);
      assert FirstFatal(ps, v, i + 1) == n;
      RangeCons(i, n - i - 1);
      assert Unrefs(Loop(ps, v, i, counter).log) == Range(i, n - i);
    }
  }

  /** Exactly the packets of the video stream up to and including the one
      whose send fails (or all of them, when none fails) are sent, in read
      order. */
  lemma {:induction false} LoopSends(ps: seq<Packet<int>>, v: int, i: nat, counter: int)
    requires i <= |ps|
    ensures var n := FirstFatal(ps, v, i);
      Sends(Loop(ps, v, i, counter).log) == Matching(ps, v, i, if n < |ps| then n + 1 else n)
    decreases |ps| - i
  {
    var n := FirstFatal(ps, v, i);
    var hi := if n < |ps| then n + 1 else n;
    if i == |ps| {
    } else if ps[i].streamIndex != v {
      var rest := Loop(ps, v, i + 1, counter);
      assert FirstFatal(ps, v, i + 1) == n;
      LoopSends(ps, v, i + 1, counter);
      SkipSends(ps, v, i, counter);
      assert Matching(ps, v, i, hi) == Matching(ps, v, i + 1, hi);
    } else if ps[i].sendResult < 0 {
      LoopFatal(ps, v, i, counter, SendOf);
      assert SendOf<Label>(Send(i)) == [i] && n == i;
      assert Matching(ps, v, i, i + 1) == [i] + Matching(ps, v, i + 1, i + 1);
    } else {
      var d := Drain(ps[i].receives, 0, i, counter);
      var rest := Loop(ps, v, i + 1, d.counter);
      assert FirstFatal(ps, v, i + 1) == n;
      LoopSends(ps, v, i + 1, d.counter);
      StepSends(ps, v, i, counter);
      assert Matching(ps, v, i, hi) == [i] + Matching(ps, v, i + 1, hi);
    }
  }

  /** `frameCounter` rises by exactly one per frame reported: frames are
      numbered `counter + 1, counter + 2, ...` in the order they are received. */
  lemma {:induction false} LoopNumbers(ps: seq<Packet<int>>, v: int, i: nat, counter: int)
    requires i <= |ps|
    ensures var r := Loop(ps, v, i, counter);
      r.counter >= counter && Numbers(r.log) == Range(counter + 1, r.counter - counter)
    decreases |ps| - i
  {
    if i == |ps| {
    } else if ps[i].streamIndex != v {
      var rest := Loop(ps, v, i + 1, counter);
      LoopNumbers(ps, v, i + 1, counter);
      SkipNumbers(ps, v, i, counter);
      LoopSkipUnfold(ps, v, i, counter);
    } else if ps[i].sendResult < 0 {
      LoopFatal(ps, v, i, counter, NumberOf);
    } else {
      var d := Drain(ps[i].receives, 0, i, counter);
      var rest := Loop(ps, v, i + 1, d.counter);
      DrainNumbering(ps[i].receives, 0, i, counter);
      LoopNumbers(ps, v, i + 1, d.counter);
      StepNumbers(ps, v, i, counter);
      LoopUnfold(ps, v, i, counter);
      RangeJoin(Numbers(d.log), Numbers(rest.log), counter + 1, d.counter + 1, rest.counter + 1);
    }
  }

  /** The final counter exceeds the initial one by the number of receive
      calls that returned a non-negative code. */
  lemma {:induction false} LoopSuccesses(ps: seq<Packet<int>>, v: int, i: nat, counter: int)
    requires i <= |ps|
    ensures var r := Loop(ps, v, i, counter);
      NonNegatives(Rets(r.log)) == r.counter - counter
    decreases |ps| - i
  {
    if i == |ps| {
    } else if ps[i].streamIndex != v {
      var rest := Loop(ps, v, i + 1, counter);
      LoopSuccesses(ps, v, i + 1, counter);
      SkipRets(ps, v, i, counter);
      LoopSkipUnfold(ps, v, i, counter);
    } else if ps[i].sendResult < 0 {
      LoopFatal(ps, v, i, counter, RetOf);
    } else {
      var d := Drain(ps[i].receives, 0, i, counter);
      var rest := Loop(ps, v, i + 1, d.counter);
      DrainSuccesses(ps[i].receives, 0, i, counter);
      LoopSuccesses(ps, v, i + 1, d.counter);
      StepRets(ps, v, i, counter);
      LoopUnfold(ps, v, i, counter);
      CountsAppend(Rets(d.log), Rets(rest.log));
    }
  }

  /** Frames are received only after a packet of the video stream was sent
      successfully, inside the packet loop: every receive call is attributed
      to such a packet. */
  lemma {:induction false} LoopReceives(ps: seq<Packet<int>>, v: int, i: nat, counter: int)
    requires i <= |ps|
    ensures var r := Loop(ps, v, i, counter);
      forall e :: e in r.log && e.Receive? ==>
        i <= e.packet < |ps| && ps[e.packet].streamIndex == v && ps[e.packet].sendResult >= 0
    decreases |ps| - i
  {
    if i == |ps| {
    } else if ps[i].streamIndex != v {
      LoopSkipUnfold(ps, v, i, counter);
      LoopReceives(ps, v, i + 1, counter);
    } else if ps[i].sendResult < 0 {
    } else {
      var d := Drain(ps[i].receives, 0, i, counter);
      DrainPackets(ps[i].receives, 0, i, counter);
      LoopUnfold(ps, v, i, counter);
      LoopReceives(ps, v, i + 1, d.counter);
    }
  }

  /** Every picture the decoder hands out before the loop stops is
      labelled once, in order. */
  lemma {:induction false} LoopOutputs(ps: seq<Packet<int>>, v: int, i: nat, counter: int)
    requires i <= |ps|
    ensures Outputs(Loop(ps, v, i, counter).log) == Classified(ps, v, i)
    decreases |ps| - i
  {
    if i == |ps| {
    } else if ps[i].streamIndex != v {
      LoopOutputs(ps, v, i + 1, counter);
      SkipOutputs(ps, v, i, counter);
    } else if ps[i].sendResult < 0 {
      LoopFatal(ps, v, i, counter, OutputOf);
    } else {
      var rs := ps[i].receives;
      var d := Drain(rs, 0, i, counter);
      DrainOutputs(rs, 0, i, counter);
      LoopOutputs(ps, v, i + 1, d.counter);
      StepOutputs(ps, v, i, counter);
    }
  }

  /** The log of a completed run: the loop's log, the total, the close. */
  lemma {:induction false} FinishedLog(setup: Setup, types: seq<MediaType>, ps: seq<Packet<int>>)
    requires H264Run(setup, types, ps).ending == Finished
    ensures var v := FirstVideoIndex(types);
      && v >= 0 && types[v] == Video && !Loop(ps, v, 0, 0).aborted
      && H264Run(setup, types, ps).log ==
         Loop(ps, v, 0, 0).log + [Total(Loop(ps, v, 0, 0).counter), CloseInput]
  {
  }

  /** The total and the close add nothing to the projections. */
  lemma {:induction false} TailProjections(log: seq<Event<Label>>, total: int)
    ensures var full := log + [Total(total), CloseInput];
      && Sends(full) == Sends(log) && Unrefs(full) == Unrefs(log)
      && Numbers(full) == Numbers(log) && Rets(full) == Rets(log)
  {
    var tail := [Total(total), CloseInput];
    ProjectAppend(log, tail, SendOf);
    ProjectAppend(log, tail, UnrefOf);
    ProjectAppend(log, tail, NumberOf);
    ProjectAppend(log, tail, RetOf);
    ProjectPair(tail[0], tail[1], SendOf);
    ProjectPair(tail[0], tail[1], UnrefOf);
    ProjectPair(tail[0], tail[1], NumberOf);
    ProjectPair(tail[0], tail[1], RetOf);
    assert Sends(log) + [] == Sends(log) && Unrefs(log) + [] == Unrefs(log);
    assert Numbers(log) + [] == Numbers(log) && Rets(log) + [] == Rets(log);
  }

  /** A completed run: the input had a video stream, no packet of it failed
      to send, every packet read was released, exactly the video packets
      were sent, and the printed total comes after the last packet and
      equals both the number of frames reported (numbered 1, 2, ...) and
      the number of successful receive calls; nothing is received after
      the loop, so frames still buffered in the decoder are not counted. */
  lemma {:induction false} RunFinished(setup: Setup, types: seq<MediaType>, ps: seq<Packet<int>>)
    requires H264Run(setup, types, ps).ending == Finished
    ensures var run, v := H264Run(setup, types, ps), FirstVideoIndex(types);
      && v >= 0 && types[v] == Video
      && FirstFatal(ps, v, 0) == |ps|
      && |run.log| >= 2 && run.log[|run.log| - 1] == CloseInput
      && run.log[|run.log| - 2] == Total(NonNegatives(Rets(run.log)))
      && Numbers(run.log) == Range(1, NonNegatives(Rets(run.log)))
      && Unrefs(run.log) == Range(0, |ps|)
      && Sends(run.log) == Matching(ps, v, 0, |ps|)
  {
    var v := FirstVideoIndex(types);
    var r := Loop(ps, v, 0, 0);
    FinishedLog(setup, types, ps);
    LoopAborts(ps, v, 0, 0);
    LoopUnrefs(ps, v, 0, 0);
    LoopSends(ps, v, 0, 0);
    LoopNumbers(ps, v, 0, 0);
    LoopSuccesses(ps, v, 0, 0);
    TailProjections(r.log, r.counter);
  }

  /** In a completed run, what is printed for the frames is the label of
      each picture the decoder handed out, once each and in order. */
  lemma {:induction false} RunLabels(setup: Setup, types: seq<MediaType>, ps: seq<Packet<int>>)
    requires H264Run(setup, types, ps).ending == Finished
    ensures Outputs(H264Run(setup, types, ps).log) == Classified(ps, FirstVideoIndex(types), 0)
  {
    var v := FirstVideoIndex(types);
    var log := Loop(ps, v, 0, 0).log;
    var tail := [Total(Loop(ps, v, 0, 0).counter), CloseInput];
    FinishedLog(setup, types, ps);
    LoopOutputs(ps, v, 0, 0);
    ProjectAppend(log, tail, OutputOf);
    ProjectPair(tail[0], tail[1], OutputOf);
    assert Outputs(log) + [] == Outputs(log);
  }

  /** The inner loop neither prints a total nor closes the input. */
  lemma {:induction false} DrainInnerEvents(rs: seq<Response<int>>, j: nat, k: nat, counter: int)
    requires j <= |rs|
    ensures forall e :: e in Drain(rs, j, k, counter).log ==> !e.Total? && !e.CloseInput?
    decreases |rs| - j
  {
    if ReceiveAt(rs, j) >= 0 {
      DrainUnfold(rs, j, k, counter);
      DrainInnerEvents(rs, j + 1, k, counter + 1);
    }
  }

  /** Neither does the outer loop: the total and the close come after it. */
  lemma {:induction false} LoopInnerEvents(ps: seq<Packet<int>>, v: int, i: nat, counter: int)
    requires i <= |ps|
    ensures forall e :: e in Loop(ps, v, i, counter).log ==> !e.Total? && !e.CloseInput?
    decreases |ps| - i
  {
    if i == |ps| {
    } else if ps[i].streamIndex != v {
      LoopSkipUnfold(ps, v, i, counter);
      LoopInnerEvents(ps, v, i + 1, counter);
    } else if ps[i].sendResult < 0 {
    } else {
      var d := Drain(ps[i].receives, 0, i, counter);
      LoopUnfold(ps, v, i, counter);
      DrainInnerEvents(ps[i].receives, 0, i, counter);
      LoopInnerEvents(ps, v, i + 1, d.counter);
    }
  }

  /** A failing send of a video packet ends the process with status 1
      before any total is printed or the input is closed. */
  lemma {:induction false} RunSendFailureExits(setup: Setup, types: seq<MediaType>, ps: seq<Packet<int>>)
    requires setup.openInput >= 0 && setup.findStreamInfo >= 0 && setup.decoderFound
    requires setup.parametersToContext >= 0 && setup.openCodec >= 0 && setup.framesAllocated
    requires FirstVideoIndex(types) >= 0
    requires FirstFatal(ps, FirstVideoIndex(types), 0) < |ps|
    ensures var run := H264Run(setup, types, ps);
      && run.ending == Exited(1)
      && Unrefs(run.log) == Range(0, FirstFatal(ps, FirstVideoIndex(types), 0))
      && forall e :: e in run.log ==> !e.Total? && !e.CloseInput?
  {
    LoopAborts(ps, FirstVideoIndex(types), 0, 0);
    LoopUnrefs(ps, FirstVideoIndex(types), 0, 0);
    LoopInnerEvents(ps, FirstVideoIndex(types), 0, 0);
  }

  /** Without a video stream the input is closed and the function returns
      before any decoder setup or packet read. */
  lemma {:induction false} RunWithoutVideo(setup: Setup, types: seq<MediaType>, ps: seq<Packet<int>>)
    requires setup.openInput >= 0 && setup.findStreamInfo >= 0
    requires forall j :: 0 <= j < |types| ==> types[j] != Video
    ensures H264Run(setup, types, ps) == Run([CloseInput], NoVideoStream)
  {
  }

  /** A two-packet stream whose first packet yields no picture and whose
      second yields two (reordering latency): the first drain answers
      EAGAIN at once, the second reports an I and a B frame, numbered 1
      and 2, and then EAGAIN; the total printed is 2. */
  lemma {:induction false} ReorderScenario()
    ensures var ps := [Packet(0, 0, []),
                       Packet(0, 0, [Response(0, AV_PICTURE_TYPE_I), Response(0, AV_PICTURE_TYPE_B)])];
      H264Run(Setup(0, 0, true, 0, 0, true), [Video], ps) ==
        Run([Send(0), Receive(0, AVERROR_EAGAIN), Unref(0),
             Send(1), Receive(1, 0), Report(1, IFrame), Receive(1, 0), Report(2, BFrame),
             Receive(1, AVERROR_EAGAIN), Unref(1), Total(2), CloseInput], Finished)
  {
    var ps := [Packet(0, 0, []),
               Packet(0, 0, [Response(0, AV_PICTURE_TYPE_I), Response(0, AV_PICTURE_TYPE_B)])];
    var rs := ps[1].receives;
    assert FirstVideoIndex([Video]) == 0;
    assert Drain(rs, 2, 1, 2) == LoopResult([Receive(1, AVERROR_EAGAIN)], 2, false);
    assert Drain(rs, 1, 1, 1) == LoopResult([Receive(1, 0), Report(2, BFrame), Receive(1, AVERROR_EAGAIN)], 2, false);
    assert Drain(rs, 0, 1, 0) == LoopResult([Receive(1, 0), Report(1, IFrame), Receive(1, 0), Report(2, BFrame),
                                             Receive(1, AVERROR_EAGAIN)], 2, false);
    assert Loop(ps, 0, 2, 2) == LoopResult([], 2, false);
    assert Loop(ps, 0, 1, 0) == LoopResult([Send(1), Receive(1, 0), Report(1, IFrame), Receive(1, 0), Report(2, BFrame),
                                            Receive(1, AVERROR_EAGAIN), Unref(1)], 2, false);
    assert Drain(ps[0].receives, 0, 0, 0) == LoopResult([Receive(0, AVERROR_EAGAIN)], 0, false);
    LoopUnfold(ps, 0, 0, 0);
    assert Loop(ps, 0, 0, 0) == LoopResult([Send(0), Receive(0, AVERROR_EAGAIN), Unref(0),
                                            Send(1), Receive(1, 0), Report(1, IFrame), Receive(1, 0), Report(2, BFrame),
                                            Receive(1, AVERROR_EAGAIN), Unref(1)], 2, false);
  }
}
