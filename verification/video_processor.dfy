/** The GPU transcoder: open input and output, prepare the compositor with the
    watermark texture and a zero-filled video texture, then for every decoded frame
    repack its RGB rows tightly, upload them, blend on the GPU, read the blend back,
    stamp the output frame with the input frame's timing and colour properties, and
    hand it to the encoder. Decoding, colour conversion and encoding are library calls;
    their results are parameters. */
module VideoProcessor {
  import opened Prelude
  import opened Layout
  import opened Pixels
  import D3DProcessor
  import MediaIO

  /** The picture type the encoder is told to use; NoPicture lets it choose. */
  datatype PictureType = NoPicture | Intra | Predicted | BiPredicted

  /** The timing and colour properties a frame carries. */
  datatype FrameProps = FrameProps(pts: int, pktDts: int, colorRange: int, colorPrimaries: int,
                                   colorTrc: int, colorspace: int, pictType: PictureType)

  /** A decoded frame, already converted to RGB24 with rows `linesize` bytes apart,
      together with what the GPU and the frame allocator answer while it is processed:
      whether the blend result could be mapped (`rendered`, rows `renderedPitch` apart)
      and the freshly allocated RGB frame (`scratch`, rows `scratchLinesize` apart)
      that the blend result is copied into for the conversion back to YUV. */
  datatype DecodedFrame = DecodedFrame(props: FrameProps, rgb: seq<byte>, linesize: nat,
                                       blendMapOk: bool, rendered: seq<byte>, renderedPitch: nat,
                                       scratch: seq<byte>, scratchLinesize: nat)

  /** The buffers the library and the GPU hand over are large enough for a w-by-h frame. */
  predicate Admissible(w: nat, h: nat, f: DecodedFrame)
  {
    CoversStrided(|f.rgb|, f.linesize, w * 3, h, 1) &&
    (f.blendMapOk ==> CoversStrided(|f.rendered|, f.renderedPitch, w, h, 4)) &&
    CoversStrided(|f.scratch|, f.scratchLinesize, w * 3, h, 1) && w * h * 3 <= |f.scratch|
  }

  /** The transcoder once prepared: frame size, compositor, watermark texture and the
      video texture every frame is uploaded to. */
  datatype Transcoder = Transcoder(width: nat, height: nat, processor: D3DProcessor.Processor,
                                   watermark: D3DProcessor.Texture, videoTexture: D3DProcessor.Texture)

  predicate Consistent(t: Transcoder)
  {
    t.processor.width == t.width && t.processor.height == t.height
  }

  // ---------------------------------------------------------------------------
  // One frame

  /** The frame handed to the conversion back to YUV: properties and RGB rows
      `linesize` bytes apart. */
  datatype OutFrame = OutFrame(props: FrameProps, rgb: seq<byte>, linesize: nat)

  /** The result of processing one frame: the video texture afterwards, and the output
      frame, None where the source returns a null frame. */
  datatype Processed = Processed(texture: D3DProcessor.Texture, frame: Option<OutFrame>)

  /** The tightly packed RGB image of a decoded frame: row y is the first `3w` bytes
      at `y * linesize`. */
  function TightRgb(t: Transcoder, f: DecodedFrame): (tight: seq<byte>)
    requires Admissible(t.width, t.height, f)
    ensures |tight| == t.width * t.height * 3
  {
    RowsOfPixels(t.width, t.height, 3);
    TightRepack(f.rgb, f.linesize, t.width * 3, t.height)
  }

  /** The blended RGB image read back from the GPU into a zero-filled buffer. */
  function BlendedRgb(t: Transcoder, f: DecodedFrame): (rgb: seq<byte>)
    requires Consistent(t) && Admissible(t.width, t.height, f)
    ensures |rgb| == t.width * t.height * 3
  {
    D3DProcessor.BlendTextures(t.processor, Zeros(t.width * t.height * 3), f.rendered, f.renderedPitch, f.blendMapOk).output
  }

  /** Processes one decoded frame. The blended image goes into the allocated RGB frame
      as one contiguous block of `3wh` bytes, as written; the corrected variant copies
      it row by row at the frame's line size. */
  function ProcessFrame(t: Transcoder, f: DecodedFrame, corrected: bool): (r: Processed)
    requires Consistent(t) && Admissible(t.width, t.height, f)
    ensures r.texture.width == t.videoTexture.width && r.texture.height == t.videoTexture.height
    ensures r.frame.Some? ==>
      var p := r.frame.value.props;
      p.pts == f.props.pts && p.pktDts == f.props.pktDts && p.colorRange == f.props.colorRange &&
      p.colorPrimaries == f.props.colorPrimaries && p.colorTrc == f.props.colorTrc &&
      p.colorspace == f.props.colorspace && p.pictType == NoPicture
    ensures r.frame.Some? ==>
      r.frame.value.linesize == f.scratchLinesize && |r.frame.value.rgb| == |f.scratch|
    ensures r.frame.Some? && !corrected ==>
      r.frame.value.rgb[..t.width * t.height * 3] == BlendedRgb(t, f) &&
      r.frame.value.rgb[t.width * t.height * 3..] == f.scratch[t.width * t.height * 3..]
  {
    var w, h := t.width, t.height;
    var up := D3DProcessor.UpdateTextureData(t.videoTexture, TightRgb(t, f), w, h);
    if !up.ok then Processed(t.videoTexture, None)
    else
      var blend := D3DProcessor.BlendTextures(t.processor, Zeros(w * h * 3), f.rendered, f.renderedPitch, f.blendMapOk);
      if !blend.ok then Processed(up.texture, None)
      else
        var props := f.props.(pictType := NoPicture);
        RowsOfPixels(w, h, 3);
        var rgb := if corrected then PackRows(blend.output, w * 3, h, f.scratchLinesize, f.scratch)
                   else ContiguousCopy(blend.output, w * h * 3, f.scratch);
        Processed(up.texture, Some(OutFrame(props, rgb, f.scratchLinesize)))
  }

  /** Neither the texture update nor the blend can fail, so no frame is ever dropped. */
  lemma ProcessFrameNeverFails(t: Transcoder, f: DecodedFrame, corrected: bool)
    requires Consistent(t) && Admissible(t.width, t.height, f)
    ensures ProcessFrame(t, f, corrected).frame.Some?
  {
  }

  /** The tight repack of a decoded frame: byte `3x + c` of row y lands at colour
      byte c of pixel (y, x). */
  lemma TightRgbAt(t: Transcoder, f: DecodedFrame, y: nat, x: nat, c: nat)
    requires Admissible(t.width, t.height, f)
    requires y < t.height && x < t.width && c < 3
    ensures RowByte(f.linesize, y, x * 3 + c) < |f.rgb|
    ensures TightIndex(t.width, 3, y, x, c) < |TightRgb(t, f)|
    ensures TightRgb(t, f)[TightIndex(t.width, 3, y, x, c)] == f.rgb[RowByte(f.linesize, y, x * 3 + c)]
  {
    var w, h := t.width, t.height;
    RowsOfPixels(w, h, 3);
    TightIsRow(w, 3, y, x, c);
    RowByteBound(|f.rgb|, f.linesize, w * 3, h, y, x * 3 + c);
    TightRepackRows(f.rgb, f.linesize, w * 3, h);
  }

  /** The video texture afterwards holds the tight repack of the frame, made opaque. */
  lemma ProcessFrameTexture(t: Transcoder, f: DecodedFrame, corrected: bool)
    requires Consistent(t) && Admissible(t.width, t.height, f)
    ensures ProcessFrame(t, f, corrected).texture.pixels == ExpandRgbToRgba(TightRgb(t, f), t.width, t.height)
  {
  }

  /** The video texture receives the decoded frame without its row padding: colour byte
      c of pixel (y, x) is byte `3x + c` of row y of the decoded frame, and every pixel
      is opaque. */
  lemma ProcessFrameUploadsTightRows(t: Transcoder, f: DecodedFrame, corrected: bool, y: nat, x: nat, c: nat)
    requires Consistent(t) && Admissible(t.width, t.height, f)
    requires y < t.height && x < t.width && c < 3
    ensures RowByte(f.linesize, y, x * 3 + c) < |f.rgb| && TightIndex(t.width, 4, y, x, 3) < t.width * t.height * 4
    ensures |ProcessFrame(t, f, corrected).texture.pixels| == t.width * t.height * 4
    ensures ProcessFrame(t, f, corrected).texture.pixels[TightIndex(t.width, 4, y, x, c)] == f.rgb[RowByte(f.linesize, y, x * 3 + c)]
    ensures ProcessFrame(t, f, corrected).texture.pixels[TightIndex(t.width, 4, y, x, 3)] == 255
  {
    var w, h := t.width, t.height;
    var tight := TightRgb(t, f);
    ProcessFrameTexture(t, f, corrected);
    TightRgbAt(t, f, y, x, c);
    TightIndexBound(w, h, 1, y, x, 0);
    TightIndexBound(w, h, 4, y, x, 3);
    ExpandRgbToRgbaPixels(tight, w, h);
    assert PixelByte(y * w + x, 3, c) == TightIndex(w, 3, y, x, c);
    assert PixelByte(y * w + x, 4, c) == TightIndex(w, 4, y, x, c);
    assert PixelByte(y * w + x, 4, 3) == TightIndex(w, 4, y, x, 3);
  }

  /** With the correction, the frame handed to the conversion reads back, row by row at
      its line size, as exactly the blended image. */
  lemma {:induction false} ProcessFrameCorrectedReadsBack(t: Transcoder, f: DecodedFrame)
    requires Consistent(t) && Admissible(t.width, t.height, f)
    ensures var r := ProcessFrame(t, f, true);
      r.frame.Some? &&
      RowsInside(|r.frame.value.rgb|, r.frame.value.linesize, t.width * 3, t.height) &&
      TightRepack(r.frame.value.rgb, r.frame.value.linesize, t.width * 3, t.height) == BlendedRgb(t, f)
  {
    RowsOfPixels(t.width, t.height, 3);
    TightRepackOfPackRows(BlendedRgb(t, f), t.width * 3, t.height, f.scratchLinesize, f.scratch);
  }

  /** As written, the contiguous copy reads back correctly when the allocated frame has
      no row padding. */
  lemma {:induction false} ProcessFrameUnpaddedReadsBack(t: Transcoder, f: DecodedFrame)
    requires Consistent(t) && Admissible(t.width, t.height, f)
    requires f.scratchLinesize == t.width * 3
    ensures var r := ProcessFrame(t, f, false);
      r.frame.Some? &&
      RowsInside(|r.frame.value.rgb|, r.frame.value.linesize, t.width * 3, t.height) &&
      TightRepack(r.frame.value.rgb, r.frame.value.linesize, t.width * 3, t.height) == BlendedRgb(t, f)
  {
    RowsOfPixels(t.width, t.height, 3);
    ContiguousCopyUnpadded(BlendedRgb(t, f), t.width * 3, t.height, f.scratch);
  }

  // ---------------------------------------------------------------------------
  // Set-up

  /** The set-up phases of a transcode, in order. */
  datatype TranscodeStep = OpenInputPhase | OpenOutputPhase | InitProcessor | CreateWatermarkTexture |
                           CreateVideoTexture | CreateToRgbScaler | CreateToYuvScaler

  const TranscodeOrder: seq<TranscodeStep> :=
    [OpenInputPhase, OpenOutputPhase, InitProcessor, CreateWatermarkTexture, CreateVideoTexture,
     CreateToRgbScaler, CreateToYuvScaler]

  /** What the library and the GPU answer during set-up. The decoder's frame size is
      a size, so it is not negative. */
  datatype Setup = Setup(streams: seq<MediaIO.StreamInfo>, inputOk: MediaIO.InputStep -> bool,
                         decoderWidth: nat, decoderHeight: nat,
                         noFile: bool, outputOk: MediaIO.OutputStep -> bool,
                         d3d: D3DProcessor.InitOutcomes,
                         watermarkTextureOk: bool, watermarkViewOk: bool,
                         videoTextureOk: bool, videoViewOk: bool,
                         toRgbOk: bool, toYuvOk: bool)

  /** Whether a set-up phase succeeds. */
  function PhaseOk(s: Setup, step: TranscodeStep): bool
  {
    match step
    case OpenInputPhase => MediaIO.OpenInput(s.streams, s.inputOk, s.decoderWidth, s.decoderHeight, 0, 0).ok
    case OpenOutputPhase => MediaIO.OpenOutput(s.noFile, s.outputOk).ok
    case InitProcessor => D3DProcessor.Initialize(s.decoderWidth, s.decoderHeight, s.d3d).ok
    case CreateWatermarkTexture => s.watermarkTextureOk && s.watermarkViewOk
    case CreateVideoTexture => s.videoTextureOk && s.videoViewOk
    case CreateToRgbScaler => s.toRgbOk
    case CreateToYuvScaler => s.toYuvOk
  }

  /** The success of every phase, as one predicate on phases. */
  function Phases(s: Setup): (ok: TranscodeStep -> bool)
    ensures forall step :: ok(step) == PhaseOk(s, step)
  {
    step => PhaseOk(s, step)
  }

  /** A complete set-up got through the compositor and both textures. */
  lemma PhasesAllOk(s: Setup)
    requires AllSucceeded(TranscodeOrder, Phases(s))
    ensures PhaseOk(s, InitProcessor) && PhaseOk(s, CreateWatermarkTexture) && PhaseOk(s, CreateVideoTexture)
  {
    assert TranscodeOrder[2] == InitProcessor && TranscodeOrder[3] == CreateWatermarkTexture;
    assert TranscodeOrder[4] == CreateVideoTexture;
  }

  /** The transcoder a complete set-up builds: the compositor at the decoder's frame
      size, the watermark texture holding the watermark pixels, and the video texture
      an opaque black frame of that size. */
  function Build(s: Setup, watermark: seq<byte>, wmWidth: nat, wmHeight: nat): (t: Transcoder)
    requires wmWidth * wmHeight * 4 <= |watermark|
    requires PhaseOk(s, CreateWatermarkTexture) && PhaseOk(s, CreateVideoTexture)
    ensures Consistent(t) && t.width == s.decoderWidth && t.height == s.decoderHeight
    ensures t.watermark.pixels == watermark[..wmWidth * wmHeight * 4]
    ensures t.videoTexture.width == t.width && t.videoTexture.height == t.height
    ensures |t.videoTexture.pixels| == t.width * t.height * 4
  {
    var w, h := s.decoderWidth, s.decoderHeight;
    var black := Zeros(w * h * 3);
    var init := D3DProcessor.Initialize(w, h, s.d3d);
    var wm := D3DProcessor.CreateTextureFromRgba(watermark, wmWidth, wmHeight, s.watermarkTextureOk, s.watermarkViewOk);
    var video := D3DProcessor.CreateTextureFromData(black, w, h, s.videoTextureOk, s.videoViewOk);
    Transcoder(w, h, init.processor, wm.texture.value, video.texture.value)
  }

  datatype Prepared = Prepared(attempted: seq<TranscodeStep>, transcoder: Option<Transcoder>)

  /** Runs the set-up phases, stopping at the first failure; only a set-up whose every
      phase succeeds yields a transcoder, and that transcoder is the one it builds. */
  function Prepare(s: Setup, watermark: seq<byte>, wmWidth: nat, wmHeight: nat): (r: Prepared)
    requires wmWidth * wmHeight * 4 <= |watermark|
    ensures r.attempted == FailFast(TranscodeOrder, Phases(s))
    ensures r.transcoder.Some? <==> AllSucceeded(TranscodeOrder, Phases(s))
    ensures r.transcoder.Some? ==>
      PhaseOk(s, CreateWatermarkTexture) && PhaseOk(s, CreateVideoTexture) &&
      r.transcoder.value == Build(s, watermark, wmWidth, wmHeight)
  {
    var ran := FailFast(TranscodeOrder, Phases(s));
    if !AllSucceeded(TranscodeOrder, Phases(s)) then Prepared(ran, None)
    else
      PhasesAllOk(s);
      Prepared(ran, Some(Build(s, watermark, wmWidth, wmHeight)))
  }

  // ---------------------------------------------------------------------------
  // The frame loop

  /** A packet read from the input: its stream, whether the decoder accepted it, and the
      frames the decoder then delivered. */
  datatype Packet = Packet(streamIndex: int, accepted: bool, frames: seq<DecodedFrame>)

  /** The frames decoded from the packets: only packets of the video stream that the
      decoder accepted deliver frames. */
  function DecodedFrames(packets: seq<Packet>, videoIndex: int): (frames: seq<DecodedFrame>)
    ensures |frames| <= Delivered(packets)
  {
    if |packets| == 0 then []
    else
      var last := packets[|packets| - 1];
      DecodedFrames(packets[..|packets| - 1], videoIndex) +
      (if last.streamIndex == videoIndex && last.accepted then last.frames else [])
  }

  /** All frames the packets carry, whatever their stream. */
  function Delivered(packets: seq<Packet>): nat
  {
    if |packets| == 0 then 0 else Delivered(packets[..|packets| - 1]) + |packets[|packets| - 1].frames|
  }

  /** Every frame of a sequence is admissible. */
  predicate FramesAdmissible(w: nat, h: nat, frames: seq<DecodedFrame>)
  {
    forall j :: 0 <= j < |frames| ==> Admissible(w, h, frames[j])
  }

  /** Every frame of every packet, and every frame of the decoder flush, is admissible. */
  predicate AllAdmissible(w: nat, h: nat, packets: seq<Packet>, flush: seq<DecodedFrame>)
  {
    (forall i :: 0 <= i < |packets| ==> FramesAdmissible(w, h, packets[i].frames)) &&
    FramesAdmissible(w, h, flush)
  }

  /** The frames handed to the encoder, in order: each processed frame that is not null. */
  function Outputs(t: Transcoder, frames: seq<DecodedFrame>, corrected: bool): (out: seq<OutFrame>)
    requires Consistent(t)
    requires FramesAdmissible(t.width, t.height, frames)
    ensures |out| <= |frames|
  {
    if |frames| == 0 then []
    else
      var r := ProcessFrame(t, frames[|frames| - 1], corrected);
      Outputs(t, frames[..|frames| - 1], corrected) + (if r.frame.Some? then [r.frame.value] else [])
  }

  /** Since no frame is ever dropped, every decoded frame reaches the encoder. */
  lemma {:induction false} OutputsKeepEveryFrame(t: Transcoder, frames: seq<DecodedFrame>, corrected: bool)
    requires Consistent(t)
    requires FramesAdmissible(t.width, t.height, frames)
    ensures |Outputs(t, frames, corrected)| == |frames|
    ensures forall k :: 0 <= k < |frames| ==> Outputs(t, frames, corrected)[k] == ProcessFrame(t, frames[k], corrected).frame.value
  {
    if |frames| > 0 {
      var init := frames[..|frames| - 1];
      OutputsKeepEveryFrame(t, init, corrected);
      ProcessFrameNeverFails(t, frames[|frames| - 1], corrected);
    }
  }

  /** Frames in the decoded stream come from admissible packets. */
  lemma {:induction false} DecodedFramesAdmissible(w: nat, h: nat, packets: seq<Packet>, videoIndex: int)
    requires forall i :: 0 <= i < |packets| ==> FramesAdmissible(w, h, packets[i].frames)
    ensures FramesAdmissible(w, h, DecodedFrames(packets, videoIndex))
  {
    if |packets| > 0 {
      var init := packets[..|packets| - 1];
      assert forall i :: 0 <= i < |init| ==> init[i] == packets[i];
      DecodedFramesAdmissible(w, h, init, videoIndex);
      assert FramesAdmissible(w, h, packets[|packets| - 1].frames);
    }
  }

  /** Processing one more frame appends its output. */
  lemma OutputsAppend(t: Transcoder, frames: seq<DecodedFrame>, f: DecodedFrame, corrected: bool)
    requires Consistent(t)
    requires FramesAdmissible(t.width, t.height, frames)
    requires Admissible(t.width, t.height, f)
    ensures FramesAdmissible(t.width, t.height, frames + [f])
    ensures Outputs(t, frames + [f], corrected) ==
      Outputs(t, frames, corrected) + (if ProcessFrame(t, f, corrected).frame.Some? then [ProcessFrame(t, f, corrected).frame.value] else [])
  {
    assert (frames + [f])[..|frames|] == frames;
  }

  /** Processes the frames one decode call delivers, after the frames `done`, appending
      every non-null output frame to `acc`, the outputs of `done`. */
  method ProcessFrames(t: Transcoder, done: seq<DecodedFrame>, frames: seq<DecodedFrame>, corrected: bool,
                       acc: seq<OutFrame>)
    returns (out: seq<OutFrame>)
    requires Consistent(t)
    requires FramesAdmissible(t.width, t.height, done) && FramesAdmissible(t.width, t.height, frames)
    requires acc == Outputs(t, done, corrected)
    ensures FramesAdmissible(t.width, t.height, done + frames)
    ensures out == Outputs(t, done + frames, corrected)
  {
    out := acc;
    assert done + frames[..0] == done;
    var j := 0;
    while j < |frames|
      invariant 0 <= j <= |frames|
      invariant FramesAdmissible(t.width, t.height, done + frames[..j])
      invariant out == Outputs(t, done + frames[..j], corrected)
    {
      assert Admissible(t.width, t.height, frames[j]);
      OutputsAppend(t, done + frames[..j], frames[j], corrected);
      PrefixStep(done, frames, j);
      var r := ProcessFrame(t, frames[j], corrected);
      if r.frame.Some? {
        out := out + [r.frame.value];
      }
      j := j + 1;
    }
    assert frames[..|frames|] == frames;
  }

  /** One more packet extends the decoded stream by its frames when it belongs to the
      video stream and the decoder accepts it, and by nothing otherwise. */
  lemma DecodedFramesStep(packets: seq<Packet>, i: nat, videoIndex: int)
    requires i < |packets|
    ensures DecodedFrames(packets[..i + 1], videoIndex) ==
      DecodedFrames(packets[..i], videoIndex) +
      (if packets[i].streamIndex == videoIndex && packets[i].accepted then packets[i].frames else [])
  {
    assert packets[..i + 1][..i] == packets[..i];
  }

  /** Reads the packets in order, processing the frames of each accepted packet of the
      video stream. */
  method ReadPackets(t: Transcoder, packets: seq<Packet>, videoIndex: int, corrected: bool)
    returns (out: seq<OutFrame>)
    requires Consistent(t)
    requires forall i :: 0 <= i < |packets| ==> FramesAdmissible(t.width, t.height, packets[i].frames)
    ensures FramesAdmissible(t.width, t.height, DecodedFrames(packets, videoIndex))
    ensures out == Outputs(t, DecodedFrames(packets, videoIndex), corrected)
  {
    out := [];
    var i := 0;
    while i < |packets|
      invariant 0 <= i <= |packets|
      invariant FramesAdmissible(t.width, t.height, DecodedFrames(packets[..i], videoIndex))
      invariant out == Outputs(t, DecodedFrames(packets[..i], videoIndex), corrected)
    {
      var p := packets[i];
      DecodedFramesStep(packets, i, videoIndex);
      if p.streamIndex == videoIndex && p.accepted {
        out := ProcessFrames(t, DecodedFrames(packets[..i], videoIndex), p.frames, corrected, out);
      } else {
        assert DecodedFrames(packets[..i], videoIndex) + [] == DecodedFrames(packets[..i], videoIndex);
      }
      i := i + 1;
    }
    assert packets[..|packets|] == packets;
  }

  /** Transcodes a file: set up, then for each packet of the video stream that the
      decoder accepts, process every frame it delivers and count those handed to the
      encoder; then do the same for the frames left in the decoder. The encoder's
      answers and the trailer's result are not checked, so a transcode that got through
      set-up reports success. */
  method ProcessVideo(s: Setup, watermark: seq<byte>, wmWidth: nat, wmHeight: nat,
                      packets: seq<Packet>, flush: seq<DecodedFrame>, corrected: bool)
    returns (ok: bool, attempted: seq<TranscodeStep>, frameCount: nat, out: seq<OutFrame>)
    requires wmWidth * wmHeight * 4 <= |watermark|
    requires AllAdmissible(s.decoderWidth, s.decoderHeight, packets, flush)
    ensures attempted == FailFast(TranscodeOrder, Phases(s))
    ensures ok <==> AllSucceeded(TranscodeOrder, Phases(s))
    ensures !ok ==> frameCount == 0 && out == []
    ensures ok ==>
      var t := Prepare(s, watermark, wmWidth, wmHeight).transcoder.value;
      var frames := DecodedFrames(packets, MediaIO.FirstVideoStream(s.streams)) + flush;
      FramesAdmissible(t.width, t.height, frames) && out == Outputs(t, frames, corrected) &&
      frameCount == |frames|
    ensures frameCount == |out|
  {
    var prep := Prepare(s, watermark, wmWidth, wmHeight);
    attempted := prep.attempted;
    frameCount := 0;
    out := [];
    if prep.transcoder.None? {
      ok := false;
      return;
    }
    var t := prep.transcoder.value;
    var videoIndex := MediaIO.FirstVideoStream(s.streams);
    out := ReadPackets(t, packets, videoIndex, corrected);
    out := ProcessFrames(t, DecodedFrames(packets, videoIndex), flush, corrected, out);
    OutputsKeepEveryFrame(t, DecodedFrames(packets, videoIndex) + flush, corrected);
    frameCount := |out|;
    ok := true;
  }

  /** Packets of other streams, and packets the decoder rejects, contribute no frames. */
  lemma {:induction false} IgnoredPacketsDeliverNothing(packets: seq<Packet>, p: Packet, videoIndex: int)
    requires p.streamIndex != videoIndex || !p.accepted
    ensures DecodedFrames(packets + [p], videoIndex) == DecodedFrames(packets, videoIndex)
  {
    assert (packets + [p])[..|packets|] == packets;
  }
}
