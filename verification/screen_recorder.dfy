/** The screen recorder: capture and compositor set-up, encoder settings, the
    per-frame pipeline (read back the captured BGRA desktop, reorder to RGBA,
    optionally blend the watermark on the GPU, reduce to RGB, copy into the encoder's
    frame row by row, stamp a presentation timestamp and send), and the recording
    loop with its frame count and pacing. Capture, GPU and encoder answers are
    parameters; the YUV conversion and the clock are not modelled. */
module ScreenRecorder {
  import opened Prelude
  import opened Layout
  import opened Pixels
  import D3DProcessor

  /** The recorder's state: desktop size, frame rate, the frame counter that supplies
      timestamps, the settings the encoder was opened with (present once it has been),
      whether the current recording was given watermark pixels, the compositor, the
      watermark texture (present once created, and kept by a later recording that is
      given none), and the video texture the captured frame is uploaded to (created on
      first use). */
  datatype Recorder = Recorder(
    width: nat, height: nat, fps: int, frameCount: nat, encoder: Option<EncoderSettings>,
    watermarkData: bool,
    processor: D3DProcessor.Processor,
    watermark: Option<D3DProcessor.Texture>,
    videoTexture: Option<D3DProcessor.Texture>)

  /** The compositor was initialised at the desktop size. */
  predicate Consistent(rec: Recorder)
  {
    rec.processor.width == rec.width && rec.processor.height == rec.height
  }

  /** Frames are blended only when the current recording was given watermark pixels
      and a watermark texture exists. */
  predicate Blends(rec: Recorder)
  {
    rec.watermarkData && rec.watermark.Some?
  }

  // ---------------------------------------------------------------------------
  // Set-up

  /** Answers during capture set-up: capture initialisation, desktop size, compositor
      initialisation, and the watermark texture creation. */
  datatype CaptureSetup = CaptureSetup(captureOk: bool, desktopWidth: nat, desktopHeight: nat,
                                       d3d: D3DProcessor.InitOutcomes, textureOk: bool, viewOk: bool)

  datatype SetupResult = SetupResult(recorder: Recorder, ok: bool)

  /** Records whether watermark pixels are supplied, then starts the capture, takes its
      desktop size, initialises the compositor at that size and, when watermark pixels
      are supplied, creates the watermark texture from them; each step's failure ends
      the set-up. Without pixels an earlier watermark texture is kept, but not blended. */
  function InitializeCapture(rec: Recorder, setup: CaptureSetup, watermarkPixels: Option<seq<byte>>,
                             wmWidth: nat, wmHeight: nat): (r: SetupResult)
    requires watermarkPixels.Some? ==> wmWidth * wmHeight * 4 <= |watermarkPixels.value|
    ensures r.ok <==>
      setup.captureOk && D3DProcessor.Initialize(setup.desktopWidth, setup.desktopHeight, setup.d3d).ok &&
      (watermarkPixels.Some? ==> setup.textureOk && setup.viewOk)
    ensures r.ok ==>
      Consistent(r.recorder) && r.recorder.width == setup.desktopWidth && r.recorder.height == setup.desktopHeight
    ensures r.ok && watermarkPixels.Some? ==> r.recorder.watermark.Some?
    ensures watermarkPixels.None? ==> r.recorder.watermark == rec.watermark
    ensures r.recorder.watermarkData <==> watermarkPixels.Some?
    ensures r.ok ==> (Blends(r.recorder) <==> watermarkPixels.Some?)
    ensures r.ok && watermarkPixels.Some? ==>
      r.recorder.watermark.value.pixels == watermarkPixels.value[..wmWidth * wmHeight * 4]
    ensures r.recorder.frameCount == rec.frameCount && r.recorder.videoTexture == rec.videoTexture
  {
    var given := rec.(watermarkData := watermarkPixels.Some?);
    if !setup.captureOk then SetupResult(given, false)
    else
      var sized := given.(width := setup.desktopWidth, height := setup.desktopHeight);
      var init := D3DProcessor.Initialize(setup.desktopWidth, setup.desktopHeight, setup.d3d);
      var withProcessor := sized.(processor := init.processor);
      if !init.ok then SetupResult(withProcessor, false)
      else match watermarkPixels
        case None => SetupResult(withProcessor, true)
        case Some(pixels) =>
          var up := D3DProcessor.CreateTextureFromRgba(pixels, wmWidth, wmHeight, setup.textureOk, setup.viewOk);
          if !up.ok then SetupResult(withProcessor, false)
          else SetupResult(withProcessor.(watermark := up.texture), true)
  }

  /** A recorder reused for a recording without watermark pixels keeps its earlier
      watermark texture but does not blend it: its frames are the plain capture. */
  lemma StaleWatermarkNotBlended(rec: Recorder, setup: CaptureSetup)
    requires rec.watermark.Some?
    ensures var r := InitializeCapture(rec, setup, None, 0, 0);
      r.recorder.watermark == rec.watermark && !Blends(r.recorder)
  {
  }

  /** A rational number, as the encoder's time base and frame rate are given. */
  datatype Rational = Rational(num: int, den: int)

  /** The encoder settings the recorder uses. */
  datatype EncoderSettings = EncoderSettings(width: nat, height: nat, timeBase: Rational, frameRate: Rational,
                                             gopSize: int, maxBFrames: nat, bitRate: nat,
                                             preset: string, tune: string)

  const BitRate: nat := 4000000

  /** H.264 at the desktop size: one timestamp tick per frame, a key frame every
      second, two B-frames, 4 Mbit/s, the "fast" preset tuned for low latency. */
  function Settings(width: nat, height: nat, fps: int): (s: EncoderSettings)
    ensures s.width == width && s.height == height
    ensures s.timeBase == Rational(1, fps) && s.frameRate == Rational(fps, 1) && s.gopSize == fps
    ensures s.timeBase.num * s.frameRate.num == s.timeBase.den * s.frameRate.den
    ensures s.gopSize == s.frameRate.num && s.frameRate.den == 1
    ensures s.maxBFrames == 2 && s.bitRate == 4000000
    ensures s.preset == "fast" && s.tune == "zerolatency"
  {
    EncoderSettings(width, height, Rational(1, fps), Rational(fps, 1), fps, 2, BitRate, "fast", "zerolatency")
  }

  /** The steps of encoder set-up, in order. */
  datatype EncoderStep = AllocOutputContext | FindEncoder | NewStream | AllocCodecContext |
                         OpenCodec | OpenFile | WriteHeader | CreateScaler

  /** The set-up order; a container that needs no file skips opening one. */
  function EncoderOrder(noFile: bool): (order: seq<EncoderStep>)
    ensures OpenFile in order <==> !noFile
    ensures |order| == if noFile then 7 else 8
  {
    [AllocOutputContext, FindEncoder, NewStream, AllocCodecContext, OpenCodec] +
    (if noFile then [] else [OpenFile]) + [WriteHeader, CreateScaler]
  }

  /** Sets up the encoder for `width` x `height` at `fps`, stopping at the first failing
      step; only a complete set-up records the settings and resets the frame counter to
      zero. */
  function InitializeEncoder(rec: Recorder, noFile: bool, stepOk: EncoderStep -> bool,
                             width: nat, height: nat, fps: int): (r: SetupResult)
    ensures r.ok <==> AllSucceeded(EncoderOrder(noFile), stepOk)
    ensures r.ok ==> r.recorder.frameCount == 0 && r.recorder.encoder == Some(Settings(width, height, fps))
    ensures !r.ok ==> r.recorder == rec
    ensures r.recorder.width == rec.width && r.recorder.height == rec.height
    ensures r.recorder.watermark == rec.watermark && r.recorder.watermarkData == rec.watermarkData
  {
    var order := EncoderOrder(noFile);
    FailFastFirstFailure(order, stepOk);
    var ran := FailFast(order, stepOk);
    if ran == order && stepOk(order[|order| - 1]) then SetupResult(rec.(frameCount := 0, encoder := Some(Settings(width, height, fps))), true)
    else SetupResult(rec, false)
  }

  // ---------------------------------------------------------------------------
  // One frame

  /** What the capture, the GPU and the encoder answer while one frame is processed.
      `stagedWidth` x `stagedHeight` is the size of the captured texture, which the
      staging copy takes from the acquired desktop image, not from the desktop
      coordinates the recorder's size comes from; `bgra` is the mapped staging copy
      (rows `pitch` bytes apart),
      `rendered` the mapped result of the watermark blend, `frameBuffer` the encoder's
      RGB frame (rows `linesize` bytes apart). */
  datatype FrameInputs = FrameInputs(
    captureOk: bool, hasCapturedTexture: bool, stagingOk: bool, mapOk: bool,
    stagedWidth: nat, stagedHeight: nat, bgra: seq<byte>, pitch: nat,
    textureOk: bool, viewOk: bool,
    blendMapOk: bool, rendered: seq<byte>, renderedPitch: nat,
    frameBuffer: seq<byte>, linesize: nat,
    sendOk: bool, receiveError: bool)

  /** What the mapping and frame allocation calls guarantee: the mapped staging copy
      holds the captured texture's image, the mapped blend result and the encoder's
      frame hold an image of the recorder's size. */
  predicate Admissible(width: nat, height: nat, inp: FrameInputs)
  {
    (inp.mapOk ==> CoversStrided(|inp.bgra|, inp.pitch, inp.stagedWidth, inp.stagedHeight, 4)) &&
    (inp.blendMapOk ==> CoversStrided(|inp.rendered|, inp.renderedPitch, width, height, 4)) &&
    CoversStrided(|inp.frameBuffer|, inp.linesize, width * 3, height, 1)
  }

  /** The result of one frame: the recorder afterwards, the returned flag, the
      timestamp stamped on the frame if it got that far, and the RGB frame handed to
      the colour conversion. */
  datatype FrameResult = FrameResult(recorder: Recorder, ok: bool, pts: Option<nat>, frame: Option<seq<byte>>,
                                     overrun: bool)

  /** The conversion loop reads `height` rows of `width` pixels of the mapped copy;
      those reads stay inside the captured image exactly when it is at least that
      large. On a rotated output the acquired image has the desktop's sides swapped. */
  predicate CaptureFits(width: nat, height: nat, inp: FrameInputs)
  {
    width <= inp.stagedWidth && height <= inp.stagedHeight
  }

  /** The RGBA image of the captured desktop. */
  function CapturedRgba(rec: Recorder, inp: FrameInputs): (rgba: seq<byte>)
    requires inp.mapOk && CoversStrided(|inp.bgra|, inp.pitch, inp.stagedWidth, inp.stagedHeight, 4)
    requires CaptureFits(rec.width, rec.height, inp)
    ensures |rgba| == rec.width * rec.height * 4
  {
    CoversSmaller(|inp.bgra|, inp.pitch, inp.stagedWidth, inp.stagedHeight, rec.width, rec.height, 4);
    SwizzleBgraToRgba(inp.bgra, inp.pitch, rec.width, rec.height)
  }

  /** The RGB image sent to the encoder, before the row copy: with a watermark, the
      GPU blend of the uploaded desktop image (the video texture is created from it on
      first use and updated in place afterwards); without one, the desktop image with
      its alpha dropped. None when the video texture cannot be created. */
  datatype Composited = Composited(videoTexture: Option<D3DProcessor.Texture>, rgb: Option<seq<byte>>)

  function Composite(rec: Recorder, inp: FrameInputs, rgba: seq<byte>): (r: Composited)
    requires Consistent(rec) && Admissible(rec.width, rec.height, inp)
    requires |rgba| == rec.width * rec.height * 4
    ensures r.rgb.Some? ==> |r.rgb.value| == rec.width * rec.height * 3
    ensures !Blends(rec) ==> r == Composited(rec.videoTexture, Some(DropAlpha(rgba, rec.width, rec.height)))
    ensures Blends(rec) && rec.videoTexture.None? ==>
      (r.rgb.Some? <==> inp.textureOk && inp.viewOk) &&
      (r.rgb.Some? ==> r.videoTexture == Some(D3DProcessor.Texture(rec.width, rec.height, rgba))) &&
      (r.rgb.None? ==> r.videoTexture.None?)
    ensures Blends(rec) && rec.videoTexture.Some? ==>
      r.rgb.Some? && r.videoTexture == Some(rec.videoTexture.value.(pixels := rgba))
  {
    if !Blends(rec) then Composited(rec.videoTexture, Some(DropAlpha(rgba, rec.width, rec.height)))
    else
      var texture :=
        if rec.videoTexture.Some? then Some(rec.videoTexture.value.(pixels := rgba))
        else
          var up := D3DProcessor.CreateTextureFromRgba(rgba, rec.width, rec.height, inp.textureOk, inp.viewOk);
          assert rgba[..rec.width * rec.height * 4] == rgba;
          if up.ok then up.texture else None;
      if texture.None? then Composited(None, None)
      else
        var blended := D3DProcessor.BlendTextures(rec.processor, Zeros(rec.width * rec.height * 3),
                                                  inp.rendered, inp.renderedPitch, inp.blendMapOk);
        Composited(texture, Some(blended.output))
  }

  /** Captures, composites and encodes one frame. Any failure before the row copy
      returns false and leaves the counter alone. A captured image smaller than the
      desktop in either direction would be read past its rows by the conversion loop;
      the model stops there with `overrun` set. A frame that reaches the copy is
      stamped with the current counter value, which then advances, even if sending it
      to the encoder fails afterwards. */
  function CaptureAndProcessFrame(rec: Recorder, inp: FrameInputs): (r: FrameResult)
    requires Consistent(rec) && Admissible(rec.width, rec.height, inp)
    ensures Consistent(r.recorder)
    ensures r.recorder.width == rec.width && r.recorder.height == rec.height && r.recorder.fps == rec.fps
    ensures r.recorder.watermark == rec.watermark && r.recorder.watermarkData == rec.watermarkData
    ensures r.recorder.processor == rec.processor
    ensures r.recorder.encoder == rec.encoder
    ensures r.pts.Some? <==> r.frame.Some?
    ensures r.pts.Some? ==> r.pts.value == rec.frameCount && r.recorder.frameCount == rec.frameCount + 1
    ensures r.pts.None? ==> r.recorder.frameCount == rec.frameCount
    ensures r.ok <==> r.pts.Some? && inp.sendOk && !inp.receiveError
    ensures r.overrun <==>
      inp.captureOk && inp.hasCapturedTexture && inp.stagingOk && inp.mapOk &&
      !CaptureFits(rec.width, rec.height, inp)
    ensures r.overrun ==> r.recorder == rec && r.pts.None? && !r.ok
    ensures r.pts.Some? <==>
      inp.captureOk && inp.hasCapturedTexture && inp.stagingOk && inp.mapOk &&
      CaptureFits(rec.width, rec.height, inp) &&
      (!Blends(rec) || rec.videoTexture.Some? || (inp.textureOk && inp.viewOk))
    ensures r.frame.Some? ==> |r.frame.value| == |inp.frameBuffer|
  {
    if !inp.captureOk || !inp.hasCapturedTexture || !inp.stagingOk || !inp.mapOk then
      FrameResult(rec, false, None, None, false)
    else if !CaptureFits(rec.width, rec.height, inp) then
      FrameResult(rec, false, None, None, true)
    else
      var rgba := CapturedRgba(rec, inp);
      var c := Composite(rec, inp, rgba);
      if c.rgb.None? then FrameResult(rec, false, None, None, false)
      else
        RowsOfPixels(rec.width, rec.height, 3);
        var frame := PackRows(c.rgb.value, rec.width * 3, rec.height, inp.linesize, inp.frameBuffer);
        var next := rec.(videoTexture := c.videoTexture, frameCount := rec.frameCount + 1);
        FrameResult(next, inp.sendOk && !inp.receiveError, Some(rec.frameCount), Some(frame), false)
  }

  /** Without a watermark, byte c of pixel (y, x) in row y of the encoder's frame is the
      red, green or blue byte of the captured BGRA pixel: channel order reversed, alpha
      dropped, row padding of both buffers skipped. */
  lemma CaptureAndProcessFramePlain(rec: Recorder, inp: FrameInputs, y: nat, x: nat, c: nat)
    requires Consistent(rec) && Admissible(rec.width, rec.height, inp) && !Blends(rec)
    requires inp.captureOk && inp.hasCapturedTexture && inp.stagingOk && inp.mapOk
    requires CaptureFits(rec.width, rec.height, inp)
    requires y < rec.height && x < rec.width && c < 3
    ensures CaptureAndProcessFrame(rec, inp).frame.Some?
    ensures RowByte(inp.linesize, y, x * 3 + c) < |inp.frameBuffer| && StridedIndex(inp.pitch, 4, y, x, 2 - c) < |inp.bgra|
    ensures CaptureAndProcessFrame(rec, inp).frame.value[RowByte(inp.linesize, y, x * 3 + c)] ==
      inp.bgra[StridedIndex(inp.pitch, 4, y, x, 2 - c)]
  {
    var w, h := rec.width, rec.height;
    CoversSmaller(|inp.bgra|, inp.pitch, inp.stagedWidth, inp.stagedHeight, w, h, 4);
    RowsOfPixels(w, h, 3);
    var rgb := DropAlpha(CapturedRgba(rec, inp), w, h);
    TightIsRow(w, 3, y, x, c);
    PackedRowByte(rgb, w * 3, h, inp.linesize, inp.frameBuffer, y, x * 3 + c);
    DropAlphaOfSwizzleAt(inp.bgra, inp.pitch, w, h, y, x, c);
  }

  /** On an output rotated by a quarter turn the acquired image has the desktop's sides
      swapped; unless the desktop is square, the conversion loop would read past it,
      so no frame is produced and the counter does not advance. */
  lemma RotatedCaptureOverruns(rec: Recorder, inp: FrameInputs)
    requires Consistent(rec) && Admissible(rec.width, rec.height, inp)
    requires inp.captureOk && inp.hasCapturedTexture && inp.stagingOk && inp.mapOk
    requires inp.stagedWidth == rec.height && inp.stagedHeight == rec.width && rec.width != rec.height
    ensures CaptureAndProcessFrame(rec, inp).overrun
    ensures CaptureAndProcessFrame(rec, inp).pts.None?
    ensures CaptureAndProcessFrame(rec, inp).recorder.frameCount == rec.frameCount
  {
  }

  /** The video texture is created by the first watermarked frame that gets that far
      and then only updated: its size never changes and it holds the last frame. */
  lemma VideoTextureCreatedOnce(rec: Recorder, inp: FrameInputs)
    requires Consistent(rec) && Admissible(rec.width, rec.height, inp) && Blends(rec)
    ensures var r := CaptureAndProcessFrame(rec, inp);
      rec.videoTexture.Some? ==>
        r.recorder.videoTexture.Some? &&
        r.recorder.videoTexture.value.width == rec.videoTexture.value.width &&
        r.recorder.videoTexture.value.height == rec.videoTexture.value.height
    ensures var r := CaptureAndProcessFrame(rec, inp);
      rec.videoTexture.None? && r.pts.Some? ==>
        r.recorder.videoTexture == Some(D3DProcessor.Texture(rec.width, rec.height, CapturedRgba(rec, inp)))
  {
  }

  // ---------------------------------------------------------------------------
  // The recording loop

  /** The frame period in whole milliseconds, `1000 / fps` with C division. */
  function FrameDurationMs(fps: int): (ms: int)
    requires fps != 0
    ensures 0 < fps <= 1000 ==> 0 < ms && ms * fps <= 1000 < (ms + 1) * fps
    ensures fps > 1000 ==> ms == 0
    ensures fps < 0 ==> ms <= 0
  {
    var ms := CDiv(1000, fps);
    if 0 < fps then
      assert ms == 1000 / fps;
      ms
    else ms
  }

  /** The pause after a frame that took `elapsedMs`: the rest of the frame period, or
      nothing if the frame took the whole period or longer. */
  function SleepMs(frameDurationMs: int, elapsedMs: nat): (s: nat)
    ensures s > 0 <==> elapsedMs < frameDurationMs
    ensures s > 0 ==> elapsedMs + s == frameDurationMs
  {
    if elapsedMs < frameDurationMs then frameDurationMs - elapsedMs else 0
  }

  /** One loop iteration: whether the frame succeeded, its timestamp if it got one,
      and the pause taken after it. */
  datatype Iteration = Iteration(ok: bool, pts: Option<nat>, sleepMs: nat)

  /** The timestamps stamped during the iterations, in order. */
  function Stamps(its: seq<Iteration>): (pts: seq<nat>)
    ensures |pts| <= |its|
  {
    if |its| == 0 then []
    else Stamps(its[..|its| - 1]) + (if its[|its| - 1].pts.Some? then [its[|its| - 1].pts.value] else [])
  }

  /** One pass of the loop body: process the frame, and pause after it only if it
      succeeded. */
  method Iterate(rec: Recorder, inp: FrameInputs, frameDurationMs: int, elapsedMs: nat)
    returns (r: Recorder, it: Iteration)
    requires Consistent(rec) && Admissible(rec.width, rec.height, inp)
    ensures r.width == rec.width && r.height == rec.height && r.watermark == rec.watermark
    ensures r.watermarkData == rec.watermarkData
    ensures r.processor == rec.processor && r.encoder == rec.encoder && Consistent(r)
    ensures PacedAt(it, frameDurationMs, elapsedMs)
    ensures it.pts.Some? ==> it.pts.value == rec.frameCount && r.frameCount == rec.frameCount + 1
    ensures it.pts.None? ==> r.frameCount == rec.frameCount
  {
    var f := CaptureAndProcessFrame(rec, inp);
    r := f.recorder;
    it := Iteration(f.ok, f.pts, if f.ok then SleepMs(frameDurationMs, elapsedMs) else 0);
  }

  /** Iteration `it` paused for the rest of the frame period after a success taking
      `elapsedMs`, and not at all after a failure; a success carries a timestamp. */
  predicate PacedAt(it: Iteration, frameDurationMs: int, elapsedMs: nat)
  {
    if it.ok then it.pts.Some? && it.sleepMs == SleepMs(frameDurationMs, elapsedMs)
    else it.sleepMs == 0
  }

  /** Every iteration so far was paced by its own elapsed time. */
  predicate Paced(its: seq<Iteration>, frameDurationMs: int, elapsedMs: nat -> nat)
  {
    forall j :: 0 <= j < |its| ==> PacedAt(its[j], frameDurationMs, elapsedMs(j))
  }

  lemma PacedGrow(its: seq<Iteration>, it: Iteration, frameDurationMs: int, elapsedMs: nat -> nat)
    requires Paced(its, frameDurationMs, elapsedMs)
    requires PacedAt(it, frameDurationMs, elapsedMs(|its|))
    ensures Paced(its + [it], frameDurationMs, elapsedMs)
  {
  }

  /** `s` counts up by one from `start`. */
  predicate Consecutive(s: seq<nat>, start: nat)
  {
    forall k :: 0 <= k < |s| ==> s[k] == start + k
  }

  /** Appending an iteration stamped with the next number keeps the stamps consecutive. */
  lemma StampsGrow(its: seq<Iteration>, it: Iteration, start: nat)
    requires Consecutive(Stamps(its), start)
    requires it.pts.Some? ==> it.pts.value == start + |Stamps(its)|
    ensures Consecutive(Stamps(its + [it]), start)
    ensures |Stamps(its + [it])| == |Stamps(its)| + (if it.pts.Some? then 1 else 0)
  {
    assert (its + [it])[..|its|] == its;
  }

  /** The recording loop: `totalFrames` iterations (none if it is not positive). A
      failed frame is skipped at once, without pausing; a good one is followed by the
      pause that completes its frame period. The timestamps are consecutive, starting
      at the counter's value, and the counter ends one past the last. */
  method RecordLoop(rec: Recorder, totalFrames: int, frameDurationMs: int,
                    inputs: nat -> FrameInputs, elapsedMs: nat -> nat)
    returns (r: Recorder, its: seq<Iteration>)
    requires Consistent(rec)
    requires forall i: nat :: Admissible(rec.width, rec.height, inputs(i))
    ensures |its| == if totalFrames > 0 then totalFrames else 0
    ensures forall i :: 0 <= i < |its| ==> !its[i].ok ==> its[i].sleepMs == 0
    ensures forall i :: 0 <= i < |its| ==> its[i].ok ==>
      its[i].pts.Some? && its[i].sleepMs == SleepMs(frameDurationMs, elapsedMs(i))
    ensures Consecutive(Stamps(its), rec.frameCount)
    ensures r.frameCount == rec.frameCount + |Stamps(its)|
    ensures r.width == rec.width && r.height == rec.height && r.encoder == rec.encoder && Consistent(r)
    ensures r.watermark == rec.watermark && r.watermarkData == rec.watermarkData
  {
    r := rec;
    its := [];
    var i := 0;
    while i < totalFrames
      invariant 0 <= i <= (if totalFrames > 0 then totalFrames else 0) && |its| == i
      invariant r.width == rec.width && r.height == rec.height && r.watermark == rec.watermark
      invariant r.watermarkData == rec.watermarkData
      invariant r.processor == rec.processor && r.encoder == rec.encoder && Consistent(r)
      invariant Paced(its, frameDurationMs, elapsedMs)
      invariant Consecutive(Stamps(its), rec.frameCount)
      invariant r.frameCount == rec.frameCount + |Stamps(its)|
    {
      var next, it := Iterate(r, inputs(i), frameDurationMs, elapsedMs(i));
      StampsGrow(its, it, rec.frameCount);
      PacedGrow(its, it, frameDurationMs, elapsedMs);
      its := its + [it];
      r := next;
      i := i + 1;
    }
  }

  /** The inputs of one recording: set-up answers, frame rate, duration and the
      per-iteration answers. */
  datatype RecordSetup = RecordSetup(capture: CaptureSetup, noFile: bool, encoderOk: EncoderStep -> bool)

  /** Records `duration` seconds at `fps` frames per second: set up capture, then the
      encoder, then run the loop; the final encoder flush and trailer are not checked,
      so a recording that got through set-up reports success. */
  method RecordScreen(rec: Recorder, setup: RecordSetup, duration: int, fps: int,
                      watermarkPixels: Option<seq<byte>>, wmWidth: nat, wmHeight: nat,
                      inputs: nat -> FrameInputs, elapsedMs: nat -> nat)
    returns (ok: bool, r: Recorder, its: seq<Iteration>)
    requires fps != 0
    requires watermarkPixels.Some? ==> wmWidth * wmHeight * 4 <= |watermarkPixels.value|
    requires forall i: nat :: Admissible(setup.capture.desktopWidth, setup.capture.desktopHeight, inputs(i))
    ensures ok <==>
      InitializeCapture(rec.(fps := fps), setup.capture, watermarkPixels, wmWidth, wmHeight).ok &&
      AllSucceeded(EncoderOrder(setup.noFile), setup.encoderOk)
    ensures !ok ==> its == []
    ensures ok ==> |its| == (if duration * fps > 0 then duration * fps else 0)
    ensures ok ==> Consecutive(Stamps(its), 0)
    ensures ok ==> r.encoder == Some(Settings(setup.capture.desktopWidth, setup.capture.desktopHeight, fps))
    ensures ok ==> (Blends(r) <==> watermarkPixels.Some?)
    ensures ok ==> forall k :: 0 <= k < |Stamps(its)| ==>
      Stamps(its)[k] * r.encoder.value.timeBase.num < duration * r.encoder.value.timeBase.den
  {
    var cap := InitializeCapture(rec.(fps := fps), setup.capture, watermarkPixels, wmWidth, wmHeight);
    r := cap.recorder;
    its := [];
    if !cap.ok {
      ok := false;
      return;
    }
    var enc := InitializeEncoder(r, setup.noFile, setup.encoderOk, r.width, r.height, fps);
    r := enc.recorder;
    if !enc.ok {
      ok := false;
      return;
    }
    r, its := RecordLoop(r, duration * fps, FrameDurationMs(fps), inputs, elapsedMs);
    ok := true;
  }
}
