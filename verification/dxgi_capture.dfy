/** Desktop capture through output duplication: initialisation (once), the per-frame
    acquire / process / release cycle with its timeout rule, the lazily created
    capture texture that the pointer is drawn onto, and release of everything. The
    duplication API's answers are parameters. */
module DxgiCapture {
  import opened Prelude
  import MouseHandler

  /** The desktop rectangle of the duplicated output. */
  datatype Rect = Rect(left: int, top: int, right: int, bottom: int)

  /** The capture texture: the size it was created with (that of the first desktop
      image) and the desktop image last copied into it. */
  datatype CapturedTexture = CapturedTexture(width: nat, height: nat, frame: nat)

  /** The capturer's state: desktop size, whether initialisation finished, the pointer
      overlay (absent after release), whether a duplication exists, and the capture
      texture. */
  datatype Capture = Capture(width: int, height: int, initialized: bool,
                             mouse: Option<MouseHandler.Handler>, duplicating: bool,
                             captured: Option<CapturedTexture>)

  /** A freshly constructed capturer owns a fresh pointer overlay and nothing else. */
  function Fresh(): (c: Capture)
    ensures Valid(c) && !c.initialized && c.captured.None?
  {
    Capture(0, 0, false, Some(MouseHandler.Fresh()), false, None)
  }

  /** An initialised capturer has a pointer overlay and a duplication. */
  predicate Valid(c: Capture)
  {
    c.initialized ==> c.mouse.Some? && c.duplicating
  }

  // ---------------------------------------------------------------------------
  // Initialisation

  /** The steps that set up duplication, in order. The desktop size is known once the
      output description has been read. */
  datatype DxgiStep = QueryDxgiDevice | GetAdapter | EnumOutputs | GetDesc | QueryOutput1 |
                      DuplicateOutput | CreateStagingTexture

  const DxgiOrder: seq<DxgiStep> :=
    [QueryDxgiDevice, GetAdapter, EnumOutputs, GetDesc, QueryOutput1, DuplicateOutput, CreateStagingTexture]

  /** GPU and duplication answers during initialisation. */
  datatype InitOutcomes = InitOutcomes(deviceOk: bool, dxgiOk: DxgiStep -> bool, desktop: Rect,
                                       mouseOk: MouseHandler.InitStage -> bool)

  /** How initialisation ended; `NoMouseHandler` is initialisation after release, where
      the released pointer overlay would be used. */
  datatype InitOutcome = Ready | Failed | NoMouseHandler

  datatype Initialized = Initialized(capture: Capture, outcome: InitOutcome)

  /** Does nothing if already initialised. Otherwise creates the device, sets up
      duplication (recording the desktop size after reading the output description),
      initialises the pointer overlay with that size, and only then marks itself
      initialised. */
  function Initialize(c: Capture, out: InitOutcomes): (r: Initialized)
    ensures c.initialized ==> r == Initialized(c, Ready)
    ensures !c.initialized ==> (r.outcome == Ready <==>
      out.deviceOk && AllSucceeded(DxgiOrder, out.dxgiOk) && c.mouse.Some? &&
      MouseHandler.Initialize(c.mouse.value, r.capture.width, r.capture.height, out.mouseOk).ok)
    ensures r.capture.initialized <==> r.outcome == Ready
    ensures Valid(c) ==> Valid(r.capture)
    ensures !c.initialized && out.deviceOk && FirstFailure(DxgiOrder, out.dxgiOk) > 3 ==>
      r.capture.width == out.desktop.right - out.desktop.left &&
      r.capture.height == out.desktop.bottom - out.desktop.top
    ensures r.capture.captured == c.captured
  {
    if c.initialized then Initialized(c, Ready)
    else if !out.deviceOk then Initialized(c, Failed)
    else
      var n := FirstFailure(DxgiOrder, out.dxgiOk);
      var sized := if n > 3 then c.(width := out.desktop.right - out.desktop.left,
                                    height := out.desktop.bottom - out.desktop.top)
                   else c;
      if n < |DxgiOrder| then Initialized(sized, Failed)
      else
        assert AllSucceeded(DxgiOrder, out.dxgiOk);
        var dup := sized.(duplicating := true);
        match dup.mouse
        case None => Initialized(dup, NoMouseHandler)
        case Some(m) =>
          var mi := MouseHandler.Initialize(m, dup.width, dup.height, out.mouseOk);
          if !mi.ok then Initialized(dup.(mouse := Some(mi.handler)), Failed)
          else Initialized(dup.(mouse := Some(mi.handler), initialized := true), Ready)
  }

  /** Initialising twice is initialising once: the second call changes nothing. */
  lemma InitializeIdempotent(c: Capture, out1: InitOutcomes, out2: InitOutcomes)
    ensures var r := Initialize(c, out1);
      r.outcome == Ready ==> Initialize(r.capture, out2) == Initialized(r.capture, Ready)
  {
  }

  // ---------------------------------------------------------------------------
  // Frame capture

  /** A desktop image as handed out by the duplication: its size and an identity. */
  datatype DesktopFrame = DesktopFrame(width: nat, height: nat, id: nat)

  /** What waiting (100 ms) for the next desktop image gives. */
  datatype Acquire =
    | Timeout
    | AcquireFailed
    | Acquired(info: MouseHandler.FrameInfo, fetch: MouseHandler.ShapeFetch, desktop: DesktopFrame)

  /** The GPU's answers while processing an acquired image: the texture query, the
      capture texture creation, and the pointer overlay's own outcomes. */
  datatype ProcessOutcomes = ProcessOutcomes(queryOk: bool, createOk: bool,
                                             gpu: MouseHandler.GpuOutcomes, draw: MouseHandler.DrawOutcomes)

  /** The render target handle of the capture texture. */
  const CapturedTarget: MouseHandler.TargetId := 1

  /** The result of one capture call: the new state, the returned flag, whether an
      acquired image was released, and whether the pointer was drawn. */
  datatype Captured = Captured(capture: Capture, ok: bool, released: bool, pointerDrawn: bool)

  /** Copies an acquired desktop image into the capture texture (creating it at the
      image's size the first time) and draws the pointer over it. */
  function ProcessFrame(c: Capture, desktop: DesktopFrame, out: ProcessOutcomes): (r: Captured)
    requires c.mouse.Some?
    ensures r.ok <==> out.queryOk && (c.captured.Some? || out.createOk)
    ensures r.ok ==> r.capture.captured.Some? && r.capture.captured.value.frame == desktop.id
    ensures c.captured.Some? ==>
      r.capture.captured.Some? && r.capture.captured.value.width == c.captured.value.width &&
      r.capture.captured.value.height == c.captured.value.height
    ensures c.captured.None? && r.ok ==>
      r.capture.captured.value.width == desktop.width && r.capture.captured.value.height == desktop.height
    ensures !r.ok ==> r.capture == c && !r.pointerDrawn
    ensures r.capture.mouse.Some? && r.capture.mouse.value.info == c.mouse.value.info
    ensures r.capture.initialized == c.initialized && r.capture.duplicating == c.duplicating
  {
    if !out.queryOk then Captured(c, false, false, false)
    else if c.captured.None? && !out.createOk then Captured(c, false, false, false)
    else
      var tex := if c.captured.Some? then c.captured.value.(frame := desktop.id)
                 else CapturedTexture(desktop.width, desktop.height, desktop.id);
      var rendered := MouseHandler.RenderMouse(c.mouse.value, CapturedTarget, None, out.gpu, out.draw);
      Captured(c.(captured := Some(tex), mouse := Some(rendered.handler)), true, false, rendered.draw.Some?)
  }

  /** Captures one desktop image. Before initialisation it fails. A timeout is a success
      that changes nothing; any other acquire failure is a failure. An acquired image
      forwards pointer changes to the overlay when the frame reports a pointer update,
      is processed, and is always released; the result is the processing result. */
  function CaptureFrame(c: Capture, acquire: Acquire, out: ProcessOutcomes): (r: Captured)
    requires Valid(c)
    requires acquire.Acquired? && acquire.info.pointerShapeBufferSize > 0 && acquire.fetch.Fetched? ==>
      |acquire.fetch.bytes| <= acquire.info.pointerShapeBufferSize
    ensures Valid(r.capture)
    ensures !c.initialized ==> r == Captured(c, false, false, false)
    ensures c.initialized && acquire.Timeout? ==> r == Captured(c, true, false, false)
    ensures c.initialized && acquire.AcquireFailed? ==> r == Captured(c, false, false, false)
    ensures r.released <==> c.initialized && acquire.Acquired?
    ensures r.released ==> (r.ok <==> out.queryOk && (c.captured.Some? || out.createOk))
    ensures r.released ==> c.mouse.Some? && r.capture.mouse.Some?
    ensures r.released && acquire.info.lastMouseUpdateTime <= 0 ==>
      c.mouse.Some? && r.capture.mouse.Some? && r.capture.mouse.value.info == c.mouse.value.info
    ensures r.released && acquire.info.lastMouseUpdateTime > 0 ==>
      c.mouse.Some? && r.capture.mouse.Some? &&
      r.capture.mouse.value.info == MouseHandler.UpdateMouse(c.mouse.value, acquire.info, acquire.fetch).info
  {
    if !c.initialized then Captured(c, false, false, false)
    else match acquire
      case Timeout => Captured(c, true, false, false)
      case AcquireFailed => Captured(c, false, false, false)
      case Acquired(info, fetch, desktop) =>
        var m := if info.lastMouseUpdateTime > 0 then MouseHandler.UpdateMouse(c.mouse.value, info, fetch)
                 else c.mouse.value;
        var p := ProcessFrame(c.(mouse := Some(m)), desktop, out);
        p.(released := true)
  }

  /** The capture texture is created at most once: once it exists, later captures keep
      its size whatever the desktop images are. */
  lemma CapturedTextureCreatedOnce(c: Capture, acquire: Acquire, out: ProcessOutcomes)
    requires Valid(c) && c.captured.Some?
    requires acquire.Acquired? && acquire.info.pointerShapeBufferSize > 0 && acquire.fetch.Fetched? ==>
      |acquire.fetch.bytes| <= acquire.info.pointerShapeBufferSize
    ensures var r := CaptureFrame(c, acquire, out);
      r.capture.captured.Some? && r.capture.captured.value.width == c.captured.value.width &&
      r.capture.captured.value.height == c.captured.value.height
  {
  }

  /** Releases the pointer overlay, the duplication and every texture, and clears the
      initialised flag. The desktop size is kept. */
  function Cleanup(c: Capture): (r: Capture)
    ensures Valid(r) && !r.initialized
    ensures r.mouse.None? && !r.duplicating && r.captured.None?
    ensures r.width == c.width && r.height == c.height
  {
    Capture(c.width, c.height, false, None, false, None)
  }

  /** After release, initialisation cannot complete: it either fails on the way or
      reaches the released pointer overlay. */
  lemma InitializeAfterCleanup(c: Capture, out: InitOutcomes)
    ensures Initialize(Cleanup(c), out).outcome != Ready
    ensures out.deviceOk && AllSucceeded(DxgiOrder, out.dxgiOk) ==>
      Initialize(Cleanup(c), out).outcome == NoMouseHandler
  {
    var n := FirstFailure(DxgiOrder, out.dxgiOk);
  }
}
