/** The cursor overlay: the state the mouse handler keeps between frames, how a
    duplicated frame's pointer information updates it, how the pointer shape is
    decoded into the sprite texture (gated by a dirty flag), and the guard and
    constant block of the sprite draw. GPU resource creation, buffer mapping and
    the shape fetch are outcome parameters. */
module MouseHandler {
  import opened Prelude
  import opened CursorShape
  import Pixels

  datatype Point = Point(x: int, y: int)

  /** The pointer as last reported: position, visibility, shape format code,
      shape buffer, shape size and row pitch, and hot spot. */
  datatype MouseInfo = MouseInfo(
    x: int, y: int, visible: bool,
    shapeType: int, shapeBuffer: seq<byte>,
    shapeWidth: nat, shapeHeight: nat, shapePitch: nat,
    hotSpot: Point)

  /** The sprite texture: the size it was created with and the tight BGRA sprite last
      written into it (None before the first write). A sprite smaller than the texture
      fills only its top-left shapeWidth x shapeHeight pixels; the other texels keep
      earlier bytes, which are not tracked, so `contents` is not the whole image. */
  datatype Texture = Texture(width: nat, height: nat, contents: Option<seq<byte>>)

  /** The eight values of the sprite's constant buffer: the sprite's top-left corner,
      the screen size and the sprite size (two padding values are always zero). */
  datatype Constants = Constants(mousePos: Point, screenWidth: int, screenHeight: int,
                                 spriteWidth: nat, spriteHeight: nat)

  /** Render targets are identified by an opaque handle. */
  type TargetId = nat

  datatype Handler = Handler(
    info: MouseInfo,
    screenWidth: int, screenHeight: int,
    initialized: bool, needsUpdate: bool,
    texture: Option<Texture>, hasShaderView: bool,
    targetView: Option<TargetId>,
    constants: Option<Constants>)

  /** A freshly constructed handler: everything zero, nothing created, nothing pending. */
  function Fresh(): (hd: Handler)
    ensures !hd.initialized && !hd.needsUpdate && hd.texture.None? && hd.targetView.None?
    ensures !hd.info.visible && |hd.info.shapeBuffer| == 0
  {
    Handler(MouseInfo(0, 0, false, 0, [], 0, 0, 0, Point(0, 0)), 0, 0, false, false, None, false, None, None)
  }

  // ---------------------------------------------------------------------------
  // Initialisation

  /** The GPU objects the overlay creates, in creation order. */
  datatype InitStage =
    CompileVertexShader | CreateVertexShader | CompilePixelShader | CreatePixelShader |
    CreateInputLayout | CreateVertexBuffer | CreateConstantBuffer | CreateSampler | CreateBlendState

  const InitOrder: seq<InitStage> := [
    CompileVertexShader, CreateVertexShader, CompilePixelShader, CreatePixelShader,
    CreateInputLayout, CreateVertexBuffer, CreateConstantBuffer, CreateSampler, CreateBlendState]

  /** The handler after initialisation, the stages attempted (the failing one last)
      and whether all succeeded. */
  datatype Initialized = Initialized(handler: Handler, attempted: seq<InitStage>, ok: bool)

  /** Records the screen size, then creates the pipeline objects in order, stopping at
      the first failure; only a complete run marks the handler initialised. */
  function Initialize(hd: Handler, screenWidth: int, screenHeight: int, stageOk: InitStage -> bool): (r: Initialized)
    ensures r.ok <==> forall i :: 0 <= i < |InitOrder| ==> stageOk(InitOrder[i])
    ensures r.attempted == FailFast(InitOrder, stageOk)
    ensures r.handler.screenWidth == screenWidth && r.handler.screenHeight == screenHeight
    ensures r.handler.initialized <==> r.ok || hd.initialized
    ensures r.handler.info == hd.info && r.handler.texture == hd.texture && r.handler.needsUpdate == hd.needsUpdate
  {
    var ran := FailFast(InitOrder, stageOk);
    FailFastFirstFailure(InitOrder, stageOk);
    var ok := ran == InitOrder && stageOk(InitOrder[|InitOrder| - 1]);
    Initialized(hd.(screenWidth := screenWidth, screenHeight := screenHeight,
                    initialized := ok || hd.initialized), ran, ok)
  }

  // ---------------------------------------------------------------------------
  // Per-frame pointer update

  /** The pointer part of a duplicated frame's information. */
  datatype FrameInfo = FrameInfo(lastMouseUpdateTime: int, position: Point, pointerVisible: bool,
                                 pointerShapeBufferSize: nat)

  /** What the shape query reports: failure, or the shape's format code, size,
      pitch, hot spot and the bytes it wrote at the start of the buffer. */
  datatype ShapeFetch =
    | FetchFailed
    | Fetched(shapeType: int, width: nat, height: nat, pitch: nat, hotSpot: Point, bytes: seq<byte>)

  /** Position and visibility follow the frame when it carries a mouse update; a frame
      that announces a shape resizes the buffer and, if the shape query succeeds,
      stores the new shape and marks the sprite dirty. */
  function UpdateMouse(hd: Handler, frame: FrameInfo, fetch: ShapeFetch): (r: Handler)
    requires frame.pointerShapeBufferSize > 0 && fetch.Fetched? ==> |fetch.bytes| <= frame.pointerShapeBufferSize
    ensures frame.lastMouseUpdateTime > 0 ==>
      r.info.x == frame.position.x && r.info.y == frame.position.y && r.info.visible == frame.pointerVisible
    ensures frame.lastMouseUpdateTime <= 0 ==>
      r.info.x == hd.info.x && r.info.y == hd.info.y && r.info.visible == hd.info.visible
    ensures frame.pointerShapeBufferSize > 0 ==> |r.info.shapeBuffer| == frame.pointerShapeBufferSize
    ensures frame.pointerShapeBufferSize == 0 ==> r.info.shapeBuffer == hd.info.shapeBuffer
    ensures r.needsUpdate <==> hd.needsUpdate || (frame.pointerShapeBufferSize > 0 && fetch.Fetched?)
    ensures frame.pointerShapeBufferSize > 0 && fetch.Fetched? ==>
      r.info.shapeType == fetch.shapeType && r.info.shapeWidth == fetch.width &&
      r.info.shapeHeight == fetch.height && r.info.shapePitch == fetch.pitch &&
      r.info.hotSpot == fetch.hotSpot && r.info.shapeBuffer[..|fetch.bytes|] == fetch.bytes
    ensures !(frame.pointerShapeBufferSize > 0 && fetch.Fetched?) ==>
      r.info.shapeType == hd.info.shapeType && r.info.shapeWidth == hd.info.shapeWidth &&
      r.info.shapeHeight == hd.info.shapeHeight && r.info.shapePitch == hd.info.shapePitch &&
      r.info.hotSpot == hd.info.hotSpot
    ensures r.initialized == hd.initialized && r.texture == hd.texture && r.targetView == hd.targetView
  {
    var info := if frame.lastMouseUpdateTime > 0
      then hd.info.(x := frame.position.x, y := frame.position.y, visible := frame.pointerVisible)
      else hd.info;
    if frame.pointerShapeBufferSize == 0 then hd.(info := info)
    else
      var resized := Resize(info.shapeBuffer, frame.pointerShapeBufferSize);
      match fetch
      case FetchFailed => hd.(info := info.(shapeBuffer := resized))
      case Fetched(t, w, h, p, hot, bytes) =>
        var buf := Pixels.ContiguousCopy(bytes, |bytes|, resized);
        hd.(info := info.(shapeBuffer := buf, shapeType := t, shapeWidth := w, shapeHeight := h,
                          shapePitch := p, hotSpot := hot),
            needsUpdate := true)
  }

  /** A frame with neither a mouse update nor a shape leaves the handler as it was. */
  lemma UpdateMouseQuiet(hd: Handler, frame: FrameInfo, fetch: ShapeFetch)
    requires frame.lastMouseUpdateTime <= 0 && frame.pointerShapeBufferSize == 0
    ensures UpdateMouse(hd, frame, fetch) == hd
  {
  }

  // ---------------------------------------------------------------------------
  // Sprite texture

  datatype Created = Created(handler: Handler, ok: bool)

  /** Creates the sprite texture at the current shape size and a view of it. An empty
      shape buffer creates nothing; a failed view creation keeps the texture. */
  function CreateMouseTexture(hd: Handler, textureOk: bool, viewOk: bool): (r: Created)
    ensures r.ok <==> |hd.info.shapeBuffer| > 0 && textureOk && viewOk
    ensures r.ok ==> r.handler.hasShaderView
    ensures r.handler.texture.Some? <==> (|hd.info.shapeBuffer| > 0 && textureOk) || hd.texture.Some?
    ensures |hd.info.shapeBuffer| > 0 && textureOk ==>
      r.handler.texture == Some(Texture(hd.info.shapeWidth, hd.info.shapeHeight, None))
    ensures r.handler.info == hd.info && r.handler.needsUpdate == hd.needsUpdate && r.handler.initialized == hd.initialized
  {
    if |hd.info.shapeBuffer| == 0 || !textureOk then Created(hd, false)
    else
      var withTexture := hd.(texture := Some(Texture(hd.info.shapeWidth, hd.info.shapeHeight, None)));
      if !viewOk then Created(withTexture, false)
      else Created(withTexture.(hasShaderView := true), true)
  }

  /** How a sprite refresh ended. `OutOfBounds` stands for a decode whose reads would
      leave the shape buffer, which the decoders do not check; `Overrun` for a decoded
      sprite whose row writes would leave the texture it is written into, which the
      refresh does not check either. */
  datatype Refresh = Skipped | CreateFailed | Decoded | MapFailed | UnknownType | OutOfBounds | Overrun

  datatype Refreshed = Refreshed(handler: Handler, outcome: Refresh)

  /** GPU outcomes of one sprite refresh: texture creation, view creation, texture map. */
  datatype GpuOutcomes = GpuOutcomes(textureOk: bool, viewOk: bool, mapOk: bool)

  /** The sprite bytes a shape of the given format code decodes to, if the format is
      known and every read stays inside the buffer. */
  function DecodeShape(info: MouseInfo): (r: Option<seq<byte>>)
    ensures ShapeTypeOf(info.shapeType).None? ==> r.None?
    ensures r.Some? ==> |r.value| == info.shapeWidth * info.shapeHeight * 4
  {
    match ShapeTypeOf(info.shapeType)
    case None => None
    case Some(t) => Decode(t, info.shapeBuffer, info.shapeWidth, info.shapeHeight, info.shapePitch)
  }

  /** The shape's `shapeHeight` rows of `shapeWidth` pixels lie inside the texture's
      image, so writing them row by row stays within the texture. */
  predicate Fits(t: Texture, info: MouseInfo)
  {
    info.shapeWidth <= t.width && info.shapeHeight <= t.height
  }

  /** Writes the decoded shape into an existing sprite texture. A colour pointer maps
      the texture before reading the shape; the other formats decode first. A decoded
      shape larger than the texture is reported as `Overrun` and nothing is stored. */
  function WriteSprite(hd: Handler, mapOk: bool): (r: Refreshed)
    requires hd.texture.Some?
    ensures r.outcome in {Decoded, MapFailed, UnknownType, OutOfBounds, Overrun}
    ensures r.outcome == Decoded <==> DecodeShape(hd.info).Some? && mapOk && Fits(hd.texture.value, hd.info)
    ensures r.outcome == Overrun <==> DecodeShape(hd.info).Some? && mapOk && !Fits(hd.texture.value, hd.info)
    ensures r.outcome == UnknownType <==> ShapeTypeOf(hd.info.shapeType).None?
    ensures r.outcome == Decoded ==>
      r.handler == hd.(texture := Some(hd.texture.value.(contents := DecodeShape(hd.info))), needsUpdate := false)
    ensures r.outcome != Decoded ==> r.handler == hd
  {
    match ShapeTypeOf(hd.info.shapeType)
    case None => Refreshed(hd, UnknownType)
    case Some(t) =>
      var sprite := DecodeShape(hd.info);
      if t == Color && !mapOk then Refreshed(hd, MapFailed)
      else if sprite.None? then Refreshed(hd, OutOfBounds)
      else if !mapOk then Refreshed(hd, MapFailed)
      else if !Fits(hd.texture.value, hd.info) then Refreshed(hd, Overrun)
      else Refreshed(hd.(texture := Some(hd.texture.value.(contents := sprite)), needsUpdate := false), Decoded)
  }

  /** Re-decodes the pointer shape into the sprite texture when it is dirty, creating
      the texture first if there is none, as written: an existing texture is reused
      whatever its size, so a later, larger shape overruns it. The dirty flag is
      cleared only by a successful decode. */
  function UpdateMouseTexture(hd: Handler, gpu: GpuOutcomes): (r: Refreshed)
    ensures !hd.needsUpdate || |hd.info.shapeBuffer| == 0 ==> r == Refreshed(hd, Skipped)
    ensures r.handler.needsUpdate <==> hd.needsUpdate && r.outcome != Decoded
    ensures r.outcome == Decoded ==>
      r.handler.texture.Some? && r.handler.texture.value.contents == DecodeShape(hd.info)
    ensures r.outcome == Decoded <==>
      hd.needsUpdate && |hd.info.shapeBuffer| > 0 &&
      (if hd.texture.Some? then Fits(hd.texture.value, hd.info) else gpu.textureOk && gpu.viewOk) &&
      DecodeShape(hd.info).Some? && gpu.mapOk
    ensures r.outcome == Overrun <==>
      hd.needsUpdate && |hd.info.shapeBuffer| > 0 && hd.texture.Some? && !Fits(hd.texture.value, hd.info) &&
      DecodeShape(hd.info).Some? && gpu.mapOk
    ensures hd.texture.Some? ==>
      r.handler.texture.Some? && r.handler.texture.value.width == hd.texture.value.width &&
      r.handler.texture.value.height == hd.texture.value.height
    ensures r.handler.info == hd.info && r.handler.initialized == hd.initialized &&
      r.handler.targetView == hd.targetView && r.handler.constants == hd.constants
  {
    if !hd.needsUpdate || |hd.info.shapeBuffer| == 0 then Refreshed(hd, Skipped)
    else if hd.texture.Some? then WriteSprite(hd, gpu.mapOk)
    else
      var c := CreateMouseTexture(hd, gpu.textureOk, gpu.viewOk);
      if !c.ok then Refreshed(c.handler, CreateFailed)
      else WriteSprite(c.handler, gpu.mapOk)
  }

  /** The refresh with the texture recreated whenever its size differs from the
      shape's, as the comment above the creation guard promises: the old texture is
      released and a new one created at the shape size before the decode. */
  function UpdateMouseTextureCorrected(hd: Handler, gpu: GpuOutcomes): (r: Refreshed)
    ensures !hd.needsUpdate || |hd.info.shapeBuffer| == 0 ==> r == Refreshed(hd, Skipped)
    ensures r.outcome != Overrun
    ensures r.handler.needsUpdate <==> hd.needsUpdate && r.outcome != Decoded
    ensures r.outcome == Decoded ==>
      r.handler.texture.Some? && r.handler.texture.value.contents == DecodeShape(hd.info) &&
      r.handler.texture.value.width == hd.info.shapeWidth && r.handler.texture.value.height == hd.info.shapeHeight
    ensures r.outcome == Decoded <==>
      hd.needsUpdate && |hd.info.shapeBuffer| > 0 &&
      (SizeMatches(hd) || (gpu.textureOk && gpu.viewOk)) &&
      DecodeShape(hd.info).Some? && gpu.mapOk
    ensures r.handler.info == hd.info && r.handler.initialized == hd.initialized &&
      r.handler.targetView == hd.targetView && r.handler.constants == hd.constants
  {
    if !hd.needsUpdate || |hd.info.shapeBuffer| == 0 then Refreshed(hd, Skipped)
    else if SizeMatches(hd) then WriteSprite(hd, gpu.mapOk)
    else
      var c := CreateMouseTexture(hd.(texture := None, hasShaderView := false), gpu.textureOk, gpu.viewOk);
      if !c.ok then Refreshed(c.handler, CreateFailed)
      else WriteSprite(c.handler, gpu.mapOk)
  }

  /** The sprite texture exists and has exactly the current shape's size. */
  predicate SizeMatches(hd: Handler)
  {
    hd.texture.Some? && hd.texture.value.width == hd.info.shapeWidth && hd.texture.value.height == hd.info.shapeHeight
  }

  /** As written, a dirty shape wider or taller than the existing texture is decoded
      and then written past the texture, while the corrected refresh recreates the
      texture and stores the sprite. */
  lemma StaleTextureOverruns(hd: Handler, gpu: GpuOutcomes)
    requires hd.needsUpdate && |hd.info.shapeBuffer| > 0 && hd.texture.Some?
    requires hd.info.shapeWidth > hd.texture.value.width || hd.info.shapeHeight > hd.texture.value.height
    requires DecodeShape(hd.info).Some? && gpu.textureOk && gpu.viewOk && gpu.mapOk
    ensures UpdateMouseTexture(hd, gpu).outcome == Overrun
    ensures UpdateMouseTextureCorrected(hd, gpu).outcome == Decoded
  {
  }

  /** A concrete case: a 1x1 sprite texture left from an earlier pointer, and a 2x1
      colour pointer (format code 2) whose row is 8 bytes. */
  lemma SpriteOverrunExample()
    ensures var hd := Fresh().(needsUpdate := true, texture := Some(Texture(1, 1, None)),
                               info := Fresh().info.(shapeType := 2, shapeBuffer := [0, 0, 0, 0, 0, 0, 0, 0],
                                                     shapeWidth := 2, shapeHeight := 1, shapePitch := 8));
      var gpu := GpuOutcomes(true, true, true);
      UpdateMouseTexture(hd, gpu).outcome == Overrun && UpdateMouseTextureCorrected(hd, gpu).outcome == Decoded
  {
    var hd := Fresh().(needsUpdate := true, texture := Some(Texture(1, 1, None)),
                       info := Fresh().info.(shapeType := 2, shapeBuffer := [0, 0, 0, 0, 0, 0, 0, 0],
                                             shapeWidth := 2, shapeHeight := 1, shapePitch := 8));
    assert ShapeTypeOf(2) == Some(Color);
    assert DecodeShape(hd.info).Some?;
    StaleTextureOverruns(hd, GpuOutcomes(true, true, true));
  }

  /** An unknown format code keeps the sprite dirty whatever the GPU does. */
  lemma UnknownTypeStaysDirty(hd: Handler, gpu: GpuOutcomes)
    requires hd.needsUpdate && ShapeTypeOf(hd.info.shapeType).None?
    ensures UpdateMouseTexture(hd, gpu).handler.needsUpdate
    ensures UpdateMouseTexture(hd, gpu).outcome != Decoded
  {
  }

  // ---------------------------------------------------------------------------
  // Drawing

  /** The one draw of the sprite quad: the constants the shader reads, the sprite it
      samples and the target it renders into. */
  datatype DrawCall = DrawCall(constants: Option<Constants>, sprite: Option<seq<byte>>, target: TargetId)

  /** The result of one render request: the handler afterwards, the draw issued (if
      any), and the render target bound on return. */
  datatype Rendered = Rendered(handler: Handler, draw: Option<DrawCall>, bound: Option<TargetId>)

  /** GPU outcomes of one render request beyond the sprite refresh. */
  datatype DrawOutcomes = DrawOutcomes(viewOk: bool, constantsMapOk: bool)

  /** The constant block for the current pointer: the sprite's corner is the pointer
      position minus the hot spot. */
  function PointerConstants(hd: Handler): (c: Constants)
    ensures c.mousePos.x + hd.info.hotSpot.x == hd.info.x && c.mousePos.y + hd.info.hotSpot.y == hd.info.y
    ensures c.screenWidth == hd.screenWidth && c.screenHeight == hd.screenHeight
    ensures c.spriteWidth == hd.info.shapeWidth && c.spriteHeight == hd.info.shapeHeight
  {
    Constants(Point(hd.info.x - hd.info.hotSpot.x, hd.info.y - hd.info.hotSpot.y),
              hd.screenWidth, hd.screenHeight, hd.info.shapeWidth, hd.info.shapeHeight)
  }

  /** Draws after the sprite refresh: creates the target view once (for the first
      target it is given), writes the constants if the constant buffer maps (otherwise
      the previous constants stay), draws, and rebinds the previously bound target. */
  function DrawSprite(hd: Handler, target: TargetId, bound: Option<TargetId>, out: DrawOutcomes): (r: Rendered)
    ensures r.bound == bound
    ensures r.draw.Some? <==> hd.targetView.Some? || out.viewOk
    ensures r.draw.Some? ==> r.handler.targetView.Some? && r.draw.value.target == r.handler.targetView.value
    ensures hd.targetView.Some? ==> r.handler.targetView == hd.targetView
    ensures r.draw.Some? && out.constantsMapOk ==> r.draw.value.constants == Some(PointerConstants(hd))
    ensures r.draw.Some? && !out.constantsMapOk ==> r.draw.value.constants == hd.constants
    ensures r.handler.constants == if r.draw.Some? then r.draw.value.constants else hd.constants
    ensures r.handler.texture == hd.texture && r.handler.needsUpdate == hd.needsUpdate && r.handler.info == hd.info
  {
    if hd.targetView.None? && !out.viewOk then Rendered(hd, None, bound)
    else
      var view := if hd.targetView.Some? then hd.targetView.value else target;
      var constants := if out.constantsMapOk then Some(PointerConstants(hd)) else hd.constants;
      var sprite := if hd.texture.Some? then hd.texture.value.contents else None;
      Rendered(hd.(targetView := Some(view), constants := constants), Some(DrawCall(constants, sprite, view)), bound)
  }

  /** Draws the pointer over `target`, as written: nothing happens unless the handler is
      initialised, the pointer visible and the sprite texture already exists; only then
      is the sprite refreshed. */
  function RenderMouse(hd: Handler, target: TargetId, bound: Option<TargetId>, gpu: GpuOutcomes, out: DrawOutcomes): (r: Rendered)
    ensures !hd.initialized || !hd.info.visible || hd.texture.None? ==> r == Rendered(hd, None, bound)
    ensures r.bound == bound
    ensures r.draw.Some? ==> hd.initialized && hd.info.visible && hd.texture.Some?
    ensures r.handler.texture.Some? <==> hd.texture.Some?
    ensures r.handler.info == hd.info && r.handler.initialized == hd.initialized
  {
    if !hd.initialized || !hd.info.visible || hd.texture.None? then Rendered(hd, None, bound)
    else DrawSprite(UpdateMouseTexture(hd, gpu).handler, target, bound, out)
  }

  /** Releases every GPU object and clears the initialised flag; the pointer state,
      screen size and dirty flag are kept. */
  function Cleanup(hd: Handler): (r: Handler)
    ensures !r.initialized && r.texture.None? && !r.hasShaderView && r.targetView.None? && r.constants.None?
    ensures r.info == hd.info && r.needsUpdate == hd.needsUpdate
    ensures r.screenWidth == hd.screenWidth && r.screenHeight == hd.screenHeight
  {
    hd.(initialized := false, texture := None, hasShaderView := false, targetView := None, constants := None)
  }

  // ---------------------------------------------------------------------------
  // The corrected draw

  /** Draws the pointer over `target` with the refresh moved before the texture guard,
      so that the first refresh can create the sprite texture, and with the refresh
      that recreates a texture of the wrong size. */
  function RenderMouseCorrected(hd: Handler, target: TargetId, bound: Option<TargetId>, gpu: GpuOutcomes, out: DrawOutcomes): (r: Rendered)
    ensures !hd.initialized || !hd.info.visible ==> r == Rendered(hd, None, bound)
    ensures r.bound == bound
    ensures r.draw.Some? ==> hd.initialized && hd.info.visible && r.handler.texture.Some?
  {
    if !hd.initialized || !hd.info.visible then Rendered(hd, None, bound)
    else
      var u := UpdateMouseTextureCorrected(hd, gpu).handler;
      if u.texture.None? then Rendered(u, None, bound)
      else DrawSprite(u, target, bound, out)
  }

  /** With the corrected order, an initialised handler with a visible pointer and a
      dirty shape that decodes draws the decoded sprite on the first request, given
      that the GPU calls succeed, even though no texture existed before. */
  lemma RenderMouseCorrectedDraws(hd: Handler, target: TargetId, bound: Option<TargetId>, gpu: GpuOutcomes, out: DrawOutcomes)
    requires hd.initialized && hd.info.visible && hd.needsUpdate && |hd.info.shapeBuffer| > 0
    requires DecodeShape(hd.info).Some?
    requires gpu.textureOk && gpu.viewOk && gpu.mapOk && out.viewOk
    ensures var r := RenderMouseCorrected(hd, target, bound, gpu, out);
      r.draw.Some? && r.draw.value.sprite == DecodeShape(hd.info) && !r.handler.needsUpdate
  {
  }

  // ---------------------------------------------------------------------------
  // Whole-session behaviour

  /** One call into the handler. */
  datatype Event =
    | Init(screenWidth: int, screenHeight: int, stageOk: InitStage -> bool)
    | Update(frame: FrameInfo, fetch: ShapeFetch)
    | Render(target: TargetId, bound: Option<TargetId>, gpu: GpuOutcomes, out: DrawOutcomes)
    | Release

  /** Shape fetches never report more bytes than the buffer they fill. */
  predicate WellFormed(e: Event)
  {
    e.Update? && e.frame.pointerShapeBufferSize > 0 && e.fetch.Fetched? ==>
      |e.fetch.bytes| <= e.frame.pointerShapeBufferSize
  }

  datatype Session = Session(handler: Handler, draws: nat)

  /** One call applied to a session. */
  function Apply(s: Session, e: Event, corrected: bool): Session
    requires WellFormed(e)
  {
    match e
    case Init(w, h, ok) => Session(Initialize(s.handler, w, h, ok).handler, s.draws)
    case Update(frame, fetch) => Session(UpdateMouse(s.handler, frame, fetch), s.draws)
    case Render(target, bound, gpu, out) =>
      var r := if corrected then RenderMouseCorrected(s.handler, target, bound, gpu, out)
               else RenderMouse(s.handler, target, bound, gpu, out);
      Session(r.handler, s.draws + if r.draw.Some? then 1 else 0)
    case Release => Session(Cleanup(s.handler), s.draws)
  }

  /** Applies `events` in order, counting the draws issued, with the draw routine as
      written (`corrected == false`) or with the corrected order. */
  function Run(hd: Handler, events: seq<Event>, corrected: bool): (s: Session)
    requires forall i :: 0 <= i < |events| ==> WellFormed(events[i])
    decreases |events|
  {
    if |events| == 0 then Session(hd, 0)
    else
      var e := events[|events| - 1];
      assert WellFormed(e);
      var prefix := events[..|events| - 1];
      assert forall i :: 0 <= i < |prefix| ==> prefix[i] == events[i];
      Apply(Run(hd, prefix, corrected), e, corrected)
  }

  /** Running one more call applies it to the session so far. */
  lemma RunSnoc(hd: Handler, events: seq<Event>, e: Event, corrected: bool)
    requires forall i :: 0 <= i < |events| ==> WellFormed(events[i])
    requires WellFormed(e)
    ensures forall i :: 0 <= i < |events + [e]| ==> WellFormed((events + [e])[i])
    ensures Run(hd, events + [e], corrected) == Apply(Run(hd, events, corrected), e, corrected)
  {
    assert forall i :: 0 <= i < |events + [e]| ==> WellFormed((events + [e])[i]) by {
      forall i | 0 <= i < |events + [e]| ensures WellFormed((events + [e])[i]) {
        if i < |events| { assert (events + [e])[i] == events[i]; }
      }
    }
    assert (events + [e])[..|events|] == events;
  }

  /** As written, a handler that starts without a sprite texture never gets one and so
      never draws the pointer, whatever sequence of calls it receives. */
  lemma {:induction false} RenderMouseNeverDraws(hd: Handler, events: seq<Event>)
    requires hd.texture.None?
    requires forall i :: 0 <= i < |events| ==> WellFormed(events[i])
    ensures Run(hd, events, false).handler.texture.None?
    ensures Run(hd, events, false).draws == 0
  {
    if |events| > 0 {
      var prefix := events[..|events| - 1];
      assert forall i :: 0 <= i < |prefix| ==> prefix[i] == events[i];
      RenderMouseNeverDraws(hd, prefix);
    }
  }

  /** The pointer state after an update depends only on the pointer state before
      it, not on the rest of the handler. */
  lemma UpdateMouseReadsOnlyPointer(hd1: Handler, hd2: Handler, frame: FrameInfo, fetch: ShapeFetch)
    requires frame.pointerShapeBufferSize > 0 && fetch.Fetched? ==> |fetch.bytes| <= frame.pointerShapeBufferSize
    requires hd1.info == hd2.info
    ensures UpdateMouse(hd1, frame, fetch).info == UpdateMouse(hd2, frame, fetch).info
  {
  }

  /** Every GPU object creation succeeds. */
  function AllStagesOk(stage: InitStage): bool
  {
    true
  }

  /** Three calls in a row apply one after the other. */
  lemma RunThree(hd: Handler, a: Event, b: Event, c: Event, corrected: bool)
    requires WellFormed(a) && WellFormed(b) && WellFormed(c)
    ensures forall i :: 0 <= i < |[a, b, c]| ==> WellFormed([a, b, c][i])
    ensures Run(hd, [a, b, c], corrected) ==
      Apply(Apply(Apply(Session(hd, 0), a, corrected), b, corrected), c, corrected)
  {
    assert [a] == [] + [a] && [a, b] == [a] + [b] && [a, b, c] == [a, b] + [c];
    RunSnoc(hd, [], a, corrected);
    RunSnoc(hd, [a], b, corrected);
    RunSnoc(hd, [a, b], c, corrected);
  }

  /** With the corrected order, initialising, receiving a visible pointer with a shape
      and rendering draws the pointer once, starting from a fresh handler; as written,
      the same calls draw nothing. */
  lemma RenderMouseCorrectedSession(w: int, h: int, frame: FrameInfo, fetch: ShapeFetch,
                                    target: TargetId, gpu: GpuOutcomes, out: DrawOutcomes)
    requires frame.lastMouseUpdateTime > 0 && frame.pointerVisible && frame.pointerShapeBufferSize > 0
    requires fetch.Fetched? && |fetch.bytes| <= frame.pointerShapeBufferSize
    requires DecodeShape(UpdateMouse(Fresh(), frame, fetch).info).Some?
    requires gpu.textureOk && gpu.viewOk && gpu.mapOk && out.viewOk
    ensures var events := [Init(w, h, AllStagesOk), Update(frame, fetch), Render(target, None, gpu, out)];
      (forall i :: 0 <= i < |events| ==> WellFormed(events[i])) &&
      Run(Fresh(), events, true).draws == 1 && Run(Fresh(), events, false).draws == 0
  {
    var init, update, render := Init(w, h, AllStagesOk), Update(frame, fetch), Render(target, None, gpu, out);
    RunThree(Fresh(), init, update, render, true);
    var h1 := Initialize(Fresh(), w, h, AllStagesOk).handler;
    var h2 := UpdateMouse(h1, frame, fetch);
    UpdateMouseReadsOnlyPointer(h1, Fresh(), frame, fetch);
    RenderMouseCorrectedDraws(h2, target, None, gpu, out);
    RenderMouseNeverDraws(Fresh(), [init, update, render]);
  }
}
