/** The filter-based transcoder. After opening the input and the output and building
    the filter graph, it reads packets; each accepted packet of the video stream is
    decoded, every decoded frame is pushed into the graph, every frame the graph
    yields is encoded, and every packet the encoder yields is written. At end of
    stream it flushes the decoder, then the graph, then the encoder, and writes the
    trailer. What the library answers at each call is given as data: the frames a
    packet decodes to, the frames the graph yields for each, the write results of the
    packets the encoder yields for each. */
module FFmpegWatermark {
  import opened Prelude
  import MediaIO
  import FilterGraph

  // ---------------------------------------------------------------------------
  // What the library answers

  /** A frame the graph yields: whether the encoder accepts it, and the result of
      writing each packet the encoder then yields. */
  datatype SinkFrame = SinkFrame(sendOk: bool, writes: seq<bool>)

  /** A decoded frame: whether the graph accepts it, and the frames the graph then yields. */
  datatype Decoded = Decoded(addOk: bool, filtered: seq<SinkFrame>)

  /** A packet read from the input: its stream, whether the decoder accepts it, and the
      frames the decoder then yields. */
  datatype Packet = Packet(streamIndex: int, sendOk: bool, frames: seq<Decoded>)

  /** What end of stream yields: the frames left in the decoder, the frames left in
      the graph, the write results of the packets left in the encoder, and whether
      the trailer is written. */
  datatype EndOfStream = EndOfStream(decoderFrames: seq<Decoded>, filterFrames: seq<SinkFrame>,
                                     encoderWrites: seq<bool>, trailerOk: bool)

  // ---------------------------------------------------------------------------
  // The packets written

  /** The part of the run a packet is written in. */
  datatype Stage = MainLoop | DecoderFlush | FilterFlush | EncoderFlush

  function Rank(s: Stage): nat
  {
    match s
    case MainLoop => 0
    case DecoderFlush => 1
    case FilterFlush => 2
    case EncoderFlush => 3
  }

  /** One packet write: where it happened and whether it succeeded. */
  datatype Write = Write(stage: Stage, ok: bool)

  function Tag(stage: Stage, oks: seq<bool>): (ws: seq<Write>)
  {
    seq(|oks|, i requires 0 <= i < |oks| => Write(stage, oks[i]))
  }

  /** The writes for one frame the graph yields. In the main loop a frame the encoder
      refuses is skipped; in the flushes the encoder's answer is not looked at. */
  function SinkWrites(stage: Stage, f: SinkFrame): seq<Write>
  {
    if stage == MainLoop && !f.sendOk then [] else Tag(stage, f.writes)
  }

  function SinkFramesWrites(stage: Stage, fs: seq<SinkFrame>): seq<Write>
  {
    if |fs| == 0 then []
    else SinkFramesWrites(stage, fs[..|fs| - 1]) + SinkWrites(stage, fs[|fs| - 1])
  }

  /** The writes for decoded frames whose graph output is read in full. */
  function DecodedWrites(stage: Stage, frames: seq<Decoded>): seq<Write>
  {
    if |frames| == 0 then []
    else DecodedWrites(stage, frames[..|frames| - 1]) + SinkFramesWrites(stage, frames[|frames| - 1].filtered)
  }

  function AddOk(f: Decoded): bool
  {
    f.addOk
  }

  /** An accepted packet of the video stream: its frames are received one by one, and
      a frame the graph refuses ends the receiving; the refused frame has been counted
      as decoded but produces nothing. Other packets, and packets the decoder refuses,
      are skipped. */
  function PacketWrites(p: Packet, videoIndex: int): seq<Write>
  {
    if p.streamIndex == videoIndex && p.sendOk then DecodedWrites(MainLoop, p.frames[..FirstFailure(p.frames, AddOk)])
    else []
  }

  function PacketReceived(p: Packet, videoIndex: int): nat
  {
    if p.streamIndex == videoIndex && p.sendOk then |FailFast(p.frames, AddOk)| else 0
  }

  function PacketsWrites(packets: seq<Packet>, videoIndex: int): seq<Write>
  {
    if |packets| == 0 then []
    else PacketsWrites(packets[..|packets| - 1], videoIndex) + PacketWrites(packets[|packets| - 1], videoIndex)
  }

  function PacketsReceived(packets: seq<Packet>, videoIndex: int): nat
  {
    if |packets| == 0 then 0
    else PacketsReceived(packets[..|packets| - 1], videoIndex) + PacketReceived(packets[|packets| - 1], videoIndex)
  }

  /** Every packet written during a run, in order: main loop, decoder flush (where a
      frame the graph refuses is not noticed), graph flush, encoder flush. */
  function RunWrites(packets: seq<Packet>, videoIndex: int, eos: EndOfStream): seq<Write>
  {
    PacketsWrites(packets, videoIndex) + DecodedWrites(DecoderFlush, eos.decoderFrames) +
    SinkFramesWrites(FilterFlush, eos.filterFrames) + Tag(EncoderFlush, eos.encoderWrites)
  }

  /** The decoded-frame counter's final value: every frame received in the main loop,
      including one the graph refuses, and every frame the decoder flush yields. */
  function RunReceived(packets: seq<Packet>, videoIndex: int, eos: EndOfStream): nat
  {
    PacketsReceived(packets, videoIndex) + |eos.decoderFrames|
  }

  // ---------------------------------------------------------------------------
  // The encoded-frame counter

  /** Whether the counter counts a write. As written, the main loop and the encoder
      flush count successful writes only, while the decoder and graph flushes count
      every write; the corrected counter counts successful writes everywhere. */
  function Counts(w: Write, corrected: bool): bool
  {
    w.ok || (!corrected && (w.stage == DecoderFlush || w.stage == FilterFlush))
  }

  function Counted(ws: seq<Write>, corrected: bool): nat
  {
    if |ws| == 0 then 0
    else Counted(ws[..|ws| - 1], corrected) + (if Counts(ws[|ws| - 1], corrected) then 1 else 0)
  }

  /** Writes that fail. */
  function Failures(ws: seq<Write>): nat
  {
    if |ws| == 0 then 0 else Failures(ws[..|ws| - 1]) + (if ws[|ws| - 1].ok then 0 else 1)
  }

  /** Writes that fail during the decoder or graph flush. */
  function FlushFailures(ws: seq<Write>): nat
  {
    if |ws| == 0 then 0
    else
      var w := ws[|ws| - 1];
      FlushFailures(ws[..|ws| - 1]) + (if !w.ok && (w.stage == DecoderFlush || w.stage == FilterFlush) then 1 else 0)
  }

  lemma {:induction false} CountedAppend(a: seq<Write>, b: seq<Write>, corrected: bool)
    ensures Counted(a + b, corrected) == Counted(a, corrected) + Counted(b, corrected)
    decreases |b|
  {
    if |b| > 0 {
      assert (a + b)[..|a + b| - 1] == a + b[..|b| - 1];
      CountedAppend(a, b[..|b| - 1], corrected);
    } else {
      assert a + b == a;
    }
  }

  /** The corrected counter and the failed writes together account for every write;
      the counter as written exceeds the corrected one by the writes that fail during
      the decoder and graph flushes. */
  lemma {:induction false} CountsAndFailures(ws: seq<Write>)
    ensures Counted(ws, true) + Failures(ws) == |ws|
    ensures Counted(ws, false) == Counted(ws, true) + FlushFailures(ws)
  {
    if |ws| > 0 {
      CountsAndFailures(ws[..|ws| - 1]);
    }
  }

  /** A run whose graph flush yields one frame whose single packet fails to be written:
      nothing reaches the file, yet the counter as written reports one encoded frame. */
  lemma FlushOvercountExample()
    ensures var eos := EndOfStream([], [SinkFrame(true, [false])], [], true);
      var ws := RunWrites([], 0, eos);
      ws == [Write(FilterFlush, false)] && Counted(ws, false) == 1 && Counted(ws, true) == 0
  {
    var eos := EndOfStream([], [SinkFrame(true, [false])], [], true);
    var fs := eos.filterFrames;
    assert fs[..0] == [];
    assert SinkFramesWrites(FilterFlush, fs) == [Write(FilterFlush, false)];
    var ws := RunWrites([], 0, eos);
    assert ws == [Write(FilterFlush, false)];
    assert ws[..0] == [];
  }

  // ---------------------------------------------------------------------------
  // Stage order

  predicate OnlyStage(ws: seq<Write>, s: Stage)
  {
    forall i :: 0 <= i < |ws| ==> ws[i].stage == s
  }

  lemma {:induction false} SinkFramesStage(stage: Stage, fs: seq<SinkFrame>)
    ensures OnlyStage(SinkFramesWrites(stage, fs), stage)
  {
    if |fs| > 0 {
      SinkFramesStage(stage, fs[..|fs| - 1]);
    }
  }

  lemma {:induction false} DecodedStage(stage: Stage, frames: seq<Decoded>)
    ensures OnlyStage(DecodedWrites(stage, frames), stage)
  {
    if |frames| > 0 {
      DecodedStage(stage, frames[..|frames| - 1]);
      SinkFramesStage(stage, frames[|frames| - 1].filtered);
    }
  }

  lemma {:induction false} PacketsStage(packets: seq<Packet>, videoIndex: int)
    ensures OnlyStage(PacketsWrites(packets, videoIndex), MainLoop)
  {
    if |packets| > 0 {
      var p := packets[|packets| - 1];
      PacketsStage(packets[..|packets| - 1], videoIndex);
      DecodedStage(MainLoop, p.frames[..FirstFailure(p.frames, AddOk)]);
    }
  }

  /** The stage rank at a position of four concatenated single-stage runs. */
  function StageRankAt(la: nat, lb: nat, lc: nat, i: nat): nat
  {
    if i < la then 0 else if i < la + lb then 1 else if i < la + lb + lc then 2 else 3
  }

  lemma StagesAt(a: seq<Write>, b: seq<Write>, c: seq<Write>, d: seq<Write>, i: nat)
    requires OnlyStage(a, MainLoop) && OnlyStage(b, DecoderFlush)
    requires OnlyStage(c, FilterFlush) && OnlyStage(d, EncoderFlush)
    requires i < |a| + |b| + |c| + |d|
    ensures Rank((a + b + c + d)[i].stage) == StageRankAt(|a|, |b|, |c|, i)
  {
    var ws := a + b + c + d;
    if i < |a| { assert ws[i] == a[i]; }
    else if i < |a| + |b| { assert ws[i] == b[i - |a|]; }
    else if i < |a| + |b| + |c| { assert ws[i] == c[i - |a| - |b|]; }
    else { assert ws[i] == d[i - |a| - |b| - |c|]; }
  }

  /** Writes are in stage order: every main-loop packet before every decoder-flush
      packet, those before every graph-flush packet, those before the encoder flush. */
  lemma RunWritesInStageOrder(packets: seq<Packet>, videoIndex: int, eos: EndOfStream)
    ensures var ws := RunWrites(packets, videoIndex, eos);
      forall i, j :: 0 <= i < j < |ws| ==> Rank(ws[i].stage) <= Rank(ws[j].stage)
  {
    var a := PacketsWrites(packets, videoIndex);
    var b := DecodedWrites(DecoderFlush, eos.decoderFrames);
    var c := SinkFramesWrites(FilterFlush, eos.filterFrames);
    var d := Tag(EncoderFlush, eos.encoderWrites);
    PacketsStage(packets, videoIndex);
    DecodedStage(DecoderFlush, eos.decoderFrames);
    SinkFramesStage(FilterFlush, eos.filterFrames);
    var ws := a + b + c + d;
    forall i, j | 0 <= i < j < |ws|
      ensures Rank(ws[i].stage) <= Rank(ws[j].stage)
    {
      StagesAt(a, b, c, d, i);
      StagesAt(a, b, c, d, j);
    }
  }

  /** A packet the decoder refuses, or one of another stream, changes nothing. */
  lemma SkippedPacketChangesNothing(packets: seq<Packet>, p: Packet, videoIndex: int)
    requires p.streamIndex != videoIndex || !p.sendOk
    ensures PacketsWrites(packets + [p], videoIndex) == PacketsWrites(packets, videoIndex)
    ensures PacketsReceived(packets + [p], videoIndex) == PacketsReceived(packets, videoIndex)
  {
    assert (packets + [p])[..|packets|] == packets;
  }

  // ---------------------------------------------------------------------------
  // The loops

  /** Appending a step to a back-recursive sequence: the prefix grows by one element. */
  lemma PrefixGrow<T>(s: seq<T>, j: nat)
    requires j < |s|
    ensures s[..j + 1][..j] == s[..j] && s[..j + 1][j] == s[j] && |s[..j + 1]| == j + 1
  {
  }

  /** Receives the encoder's packets and writes each, counting as the stage does. */
  method Drain(stage: Stage, oks: seq<bool>, corrected: bool) returns (ws: seq<Write>, count: nat)
    ensures ws == Tag(stage, oks)
    ensures count == Counted(ws, corrected)
  {
    ws, count := [], 0;
    var i := 0;
    while i < |oks|
      invariant 0 <= i <= |oks|
      invariant ws == Tag(stage, oks[..i])
      invariant count == Counted(ws, corrected)
    {
      var w := Write(stage, oks[i]);
      assert Tag(stage, oks[..i + 1]) == ws + [w];
      assert (ws + [w])[..|ws|] == ws;
      if Counts(w, corrected) {
        count := count + 1;
      }
      ws := ws + [w];
      i := i + 1;
    }
    assert oks[..|oks|] == oks;
  }

  /** Reads the frames the graph yields and encodes each; in the main loop a frame the
      encoder refuses is skipped. */
  method FeedEncoder(stage: Stage, fs: seq<SinkFrame>, corrected: bool) returns (ws: seq<Write>, count: nat)
    ensures ws == SinkFramesWrites(stage, fs)
    ensures count == Counted(ws, corrected)
  {
    ws, count := [], 0;
    var j := 0;
    while j < |fs|
      invariant 0 <= j <= |fs|
      invariant ws == SinkFramesWrites(stage, fs[..j])
      invariant count == Counted(ws, corrected)
    {
      PrefixGrow(fs, j);
      var more: seq<Write>, n: nat := [], 0;
      if !(stage == MainLoop && !fs[j].sendOk) {
        more, n := Drain(stage, fs[j].writes, corrected);
      }
      CountedAppend(ws, more, corrected);
      ws, count := ws + more, count + n;
      j := j + 1;
    }
    assert fs[..|fs|] == fs;
  }

  /** The decoder flush: every frame is pushed into the graph, without looking at the
      answer, and the graph's output encoded. */
  method FlushFrames(stage: Stage, frames: seq<Decoded>, corrected: bool) returns (ws: seq<Write>, count: nat)
    ensures ws == DecodedWrites(stage, frames)
    ensures count == Counted(ws, corrected)
  {
    ws, count := [], 0;
    var j := 0;
    while j < |frames|
      invariant 0 <= j <= |frames|
      invariant ws == DecodedWrites(stage, frames[..j])
      invariant count == Counted(ws, corrected)
    {
      PrefixGrow(frames, j);
      var more, n := FeedEncoder(stage, frames[j].filtered, corrected);
      CountedAppend(ws, more, corrected);
      ws, count := ws + more, count + n;
      j := j + 1;
    }
    assert frames[..|frames|] == frames;
  }

  /** The frames of an accepted packet in the main loop: each is counted as decoded
      and pushed into the graph; a refusal ends the packet. */
  method ReceiveFrames(frames: seq<Decoded>, corrected: bool) returns (ws: seq<Write>, count: nat, received: nat)
    ensures ws == DecodedWrites(MainLoop, frames[..FirstFailure(frames, AddOk)])
    ensures count == Counted(ws, corrected)
    ensures received == |FailFast(frames, AddOk)|
  {
    FirstFailureOfFailFast(frames, AddOk);
    ghost var stop := FirstFailure(frames, AddOk);
    ws, count, received := [], 0, 0;
    var j := 0;
    while j < |frames|
      invariant 0 <= j <= stop
      invariant received == j
      invariant ws == DecodedWrites(MainLoop, frames[..j])
      invariant count == Counted(ws, corrected)
    {
      received := received + 1;
      if !frames[j].addOk {
        assert j == stop;
        return;
      }
      PrefixGrow(frames, j);
      var more, n := FeedEncoder(MainLoop, frames[j].filtered, corrected);
      CountedAppend(ws, more, corrected);
      ws, count := ws + more, count + n;
      j := j + 1;
    }
    assert frames[..|frames|] == frames;
  }

  /** The main loop: reads every packet, decoding those of the video stream. */
  method ReadPackets(packets: seq<Packet>, videoIndex: int, corrected: bool)
    returns (ws: seq<Write>, count: nat, received: nat)
    ensures ws == PacketsWrites(packets, videoIndex)
    ensures count == Counted(ws, corrected)
    ensures received == PacketsReceived(packets, videoIndex)
  {
    ws, count, received := [], 0, 0;
    var i := 0;
    while i < |packets|
      invariant 0 <= i <= |packets|
      invariant ws == PacketsWrites(packets[..i], videoIndex)
      invariant count == Counted(ws, corrected)
      invariant received == PacketsReceived(packets[..i], videoIndex)
    {
      PrefixGrow(packets, i);
      var p := packets[i];
      if p.streamIndex == videoIndex && p.sendOk {
        var more, n, r := ReceiveFrames(p.frames, corrected);
        CountedAppend(ws, more, corrected);
        ws, count, received := ws + more, count + n, received + r;
      } else {
        assert PacketsWrites(packets[..i + 1], videoIndex) == ws + [];
      }
      i := i + 1;
    }
    assert packets[..|packets|] == packets;
  }

  // ---------------------------------------------------------------------------
  // The run

  /** The parts of a run, in order: four set-up steps, each of which can end the run,
      then the main loop, the three flushes and the trailer, which always run. */
  datatype RunStep = OpenInputStep | OpenOutputStep | InitFilterStep | AllocFramesStep |
                     ReadPacketsStep | FlushDecoderStep | FlushFilterStep | FlushEncoderStep | WriteTrailerStep

  const SetupOrder: seq<RunStep> := [OpenInputStep, OpenOutputStep, InitFilterStep, AllocFramesStep]

  const EndOrder: seq<RunStep> := [ReadPacketsStep, FlushDecoderStep, FlushFilterStep, FlushEncoderStep, WriteTrailerStep]

  /** What the library answers during set-up. The decoder's frame description is taken
      from the opened input. */
  datatype Setup = Setup(streams: seq<MediaIO.StreamInfo>, inputOk: MediaIO.InputStep -> bool,
                         noFile: bool, outputOk: MediaIO.OutputStep -> bool,
                         format: FilterGraph.StreamFormat, filterOk: FilterGraph.FilterStep -> bool,
                         watermarkPath: string, alpha: real, allocOk: bool)

  function SetupStepOk(s: Setup, step: RunStep): bool
  {
    match step
    case OpenInputStep => MediaIO.OpenInput(s.streams, s.inputOk, s.format.width, s.format.height, 0, 0).ok
    case OpenOutputStep => MediaIO.OpenOutput(s.noFile, s.outputOk).ok
    case InitFilterStep => FilterGraph.InitializeFilter(s.filterOk, s.format, s.watermarkPath, s.alpha, false).ok
    case AllocFramesStep => s.allocOk
    case _ => true
  }

  function SetupSteps(s: Setup): (ok: RunStep -> bool)
    ensures forall step :: ok(step) == SetupStepOk(s, step)
  {
    step => SetupStepOk(s, step)
  }

  /** Set-up succeeds when its fail-fast run reaches the last step and that step
      succeeds; the input is then open on its first video stream. */
  lemma SetupSucceeds(s: Setup)
    ensures AllSucceeded(SetupOrder, SetupSteps(s)) <==>
      FailFast(SetupOrder, SetupSteps(s)) == SetupOrder && s.allocOk
    ensures AllSucceeded(SetupOrder, SetupSteps(s)) ==>
      MediaIO.OpenInput(s.streams, s.inputOk, s.format.width, s.format.height, 0, 0).ok
  {
    FailFastFirstFailure(SetupOrder, SetupSteps(s));
    if AllSucceeded(SetupOrder, SetupSteps(s)) {
      assert SetupSteps(s)(SetupOrder[0]);
    }
  }

  /** Everything after set-up: the main loop and the three flushes. */
  method Transcode(packets: seq<Packet>, videoIndex: int, eos: EndOfStream, corrected: bool)
    returns (decoded: nat, encoded: nat, written: seq<Write>)
    ensures written == RunWrites(packets, videoIndex, eos)
    ensures decoded == RunReceived(packets, videoIndex, eos)
    ensures encoded == Counted(written, corrected)
  {
    var main, n0, r0 := ReadPackets(packets, videoIndex, corrected);
    var dec, n1 := FlushFrames(DecoderFlush, eos.decoderFrames, corrected);
    var filt, n2 := FeedEncoder(FilterFlush, eos.filterFrames, corrected);
    var enc, n3 := Drain(EncoderFlush, eos.encoderWrites, corrected);
    CountedAppend(main, dec, corrected);
    CountedAppend(main + dec, filt, corrected);
    CountedAppend(main + dec + filt, enc, corrected);
    written := main + dec + filt + enc;
    decoded := r0 + |eos.decoderFrames|;
    encoded := n0 + n1 + n2 + n3;
  }

  /** Transcodes a file. A set-up failure ends the run with failure; otherwise the
      main loop and the flushes always run, and the run succeeds exactly when the
      trailer is written. Besides the result, the run keeps two counters that it only
      reports: frames decoded and frames encoded. */
  method ProcessVideo(s: Setup, packets: seq<Packet>, eos: EndOfStream, corrected: bool)
    returns (ok: bool, attempted: seq<RunStep>, decoded: nat, encoded: nat, written: seq<Write>)
    ensures ok <==> AllSucceeded(SetupOrder, SetupSteps(s)) && eos.trailerOk
    ensures attempted == if AllSucceeded(SetupOrder, SetupSteps(s)) then SetupOrder + EndOrder
                         else FailFast(SetupOrder, SetupSteps(s))
    ensures !AllSucceeded(SetupOrder, SetupSteps(s)) ==> decoded == 0 && encoded == 0 && written == []
    ensures AllSucceeded(SetupOrder, SetupSteps(s)) ==>
      var videoIndex := MediaIO.FirstVideoStream(s.streams);
      written == RunWrites(packets, videoIndex, eos) &&
      decoded == RunReceived(packets, videoIndex, eos) &&
      encoded == Counted(written, corrected)
  {
    var ran := FailFast(SetupOrder, SetupSteps(s));
    SetupSucceeds(s);
    if !(ran == SetupOrder && s.allocOk) {
      ok, attempted, decoded, encoded, written := false, ran, 0, 0, [];
      return;
    }
    var input := MediaIO.OpenInput(s.streams, s.inputOk, s.format.width, s.format.height, 0, 0);
    decoded, encoded, written := Transcode(packets, input.videoIndex, eos, corrected);
    ok, attempted := eos.trailerOk, SetupOrder + EndOrder;
  }
}
