/** The off-screen compositor: a device with a render target and a staging texture of
    one fixed size, a full-screen quad drawn with an index buffer, RGB frame upload
    with opaque alpha, and the stride-aware readback of the blended result. The GPU's
    draw itself (the blend shader) is not part of this model: the rendered staging
    bytes are a parameter. */
module D3DProcessor {
  import opened Prelude
  import opened Layout
  import opened Pixels

  /** A texture of the compositor: its size and its RGBA contents. */
  datatype Texture = Texture(width: nat, height: nat, pixels: seq<byte>)

  /** The size of a texture the compositor owns. */
  datatype Extent = Extent(width: nat, height: nat)

  /** The compositor's state: the frame size it was initialised with, the render target
      and staging textures it created, and whether initialisation finished. */
  datatype Processor = Processor(width: nat, height: nat, renderTarget: Option<Extent>,
                                 staging: Option<Extent>, ready: bool)

  // ---------------------------------------------------------------------------
  // Initialisation

  /** The steps of device creation, in order. */
  datatype DeviceStep = CreateD3DDevice | CreateRenderTargetTexture | CreateRenderTargetView | CreateStagingTexture

  const DeviceOrder: seq<DeviceStep> :=
    [CreateD3DDevice, CreateRenderTargetTexture, CreateRenderTargetView, CreateStagingTexture]

  /** The steps of initialisation, in order; the first is the device creation above. */
  datatype InitStep = CreateDevice | CompileShaders | CreateBuffers | CreateSamplerState

  const InitOrder: seq<InitStep> := [CreateDevice, CompileShaders, CreateBuffers, CreateSamplerState]

  /** Outcomes of the GPU calls made by initialisation. */
  datatype InitOutcomes = InitOutcomes(deviceStepOk: DeviceStep -> bool, stepOk: InitStep -> bool)

  /** Whether an initialisation step succeeds: device creation succeeds when each of
      its own steps does. */
  function StepSucceeds(out: InitOutcomes, s: InitStep): (ok: bool)
    ensures s == CreateDevice ==> (ok <==> AllSucceeded(DeviceOrder, out.deviceStepOk))
  {
    if s == CreateDevice then
      FailFastFirstFailure(DeviceOrder, out.deviceStepOk);
      FailFast(DeviceOrder, out.deviceStepOk) == DeviceOrder && out.deviceStepOk(CreateStagingTexture)
    else out.stepOk(s)
  }

  datatype Initialized = Initialized(processor: Processor, attempted: seq<InitStep>, ok: bool)

  /** Records the frame size, then creates the device (with a render target and a
      staging texture of that size), compiles the shaders, creates the quad buffers and
      the sampler, stopping at the first failure. */
  function Initialize(width: nat, height: nat, out: InitOutcomes): (r: Initialized)
    ensures r.processor.width == width && r.processor.height == height
    ensures r.attempted == FailFast(InitOrder, s => StepSucceeds(out, s))
    ensures r.ok <==> (AllSucceeded(DeviceOrder, out.deviceStepOk) &&
      out.stepOk(CompileShaders) && out.stepOk(CreateBuffers) && out.stepOk(CreateSamplerState))
    ensures r.processor.ready == r.ok
    ensures r.ok ==>
      r.processor.renderTarget == Some(Extent(width, height)) && r.processor.staging == Some(Extent(width, height))
    ensures r.processor.renderTarget.Some? ==> r.processor.renderTarget == Some(Extent(width, height))
    ensures r.processor.staging.Some? ==> r.processor.staging == Some(Extent(width, height))
  {
    var ok := s => StepSucceeds(out, s);
    var ran := FailFast(InitOrder, ok);
    FailFastFirstFailure(InitOrder, ok);
    var devRan := FailFast(DeviceOrder, out.deviceStepOk);
    FailFastFirstFailure(DeviceOrder, out.deviceStepOk);
    var rt := if |devRan| >= 2 && out.deviceStepOk(CreateRenderTargetTexture) then Some(Extent(width, height)) else None;
    var staging := if ok(CreateDevice) then Some(Extent(width, height)) else None;
    var allOk := ran == InitOrder && ok(CreateSamplerState);
    Initialized(Processor(width, height, rt, staging, allOk), ran, allOk)
  }

  /** Every texture initialisation creates has the frame size, so the render target
      can always be copied into the staging texture. */
  lemma InitializeTexturesAgree(width: nat, height: nat, out: InitOutcomes)
    ensures var p := Initialize(width, height, out).processor;
      p.renderTarget.Some? && p.staging.Some? ==> p.renderTarget == p.staging
    ensures var p := Initialize(width, height, out).processor;
      p.staging.Some? ==> p.renderTarget.Some?
  {
    var devRan := FailFast(DeviceOrder, out.deviceStepOk);
    FailFastFirstFailure(DeviceOrder, out.deviceStepOk);
    if AllSucceeded(DeviceOrder, out.deviceStepOk) {
      assert devRan == DeviceOrder;
      assert out.deviceStepOk(DeviceOrder[1]);
    }
  }

  // ---------------------------------------------------------------------------
  // The full-screen quad

  /** A quad vertex: clip-space position and texture coordinate. All values are the
      exact integers -1, 0 or 1. */
  datatype Vertex = Vertex(x: int, y: int, u: int, v: int)

  const QuadVertices: seq<Vertex> :=
    [Vertex(-1, 1, 0, 0), Vertex(1, 1, 1, 0), Vertex(1, -1, 1, 1), Vertex(-1, -1, 0, 1)]

  const QuadIndices: seq<nat> := [0, 1, 2, 0, 2, 3]

  /** Twice the signed area of triangle (a, b, c); negative means clockwise. */
  function Cross(a: Vertex, b: Vertex, c: Vertex): int
  {
    (b.x - a.x) * (c.y - a.y) - (b.y - a.y) * (c.x - a.x)
  }

  /** Twice the signed area of the `t`-th triangle of an index list. */
  function TriangleCross(vertices: seq<Vertex>, indices: seq<nat>, t: nat): int
    requires 3 * t + 2 < |indices|
    requires forall i :: 0 <= i < |indices| ==> indices[i] < |vertices|
  {
    Cross(vertices[indices[3 * t]], vertices[indices[3 * t + 1]], vertices[indices[3 * t + 2]])
  }

  /** The six indices name the four vertices, each at least once. */
  lemma QuadIndicesInRange()
    ensures |QuadIndices| == 6 && forall i :: 0 <= i < |QuadIndices| ==> QuadIndices[i] < |QuadVertices|
    ensures forall k :: 0 <= k < 4 ==> k in QuadIndices
  {
    assert QuadIndices[0] == 0 && QuadIndices[1] == 1 && QuadIndices[2] == 2 && QuadIndices[5] == 3;
  }

  /** Both triangles are clockwise, each covering half of the 2-by-2 clip square. */
  lemma QuadTrianglesClockwise()
    ensures forall i :: 0 <= i < |QuadIndices| ==> QuadIndices[i] < |QuadVertices|
    ensures TriangleCross(QuadVertices, QuadIndices, 0) == -4
    ensures TriangleCross(QuadVertices, QuadIndices, 1) == -4
  {
    QuadIndicesInRange();
    var v := QuadVertices;
    var a, b, c, d := Vertex(-1, 1, 0, 0), Vertex(1, 1, 1, 0), Vertex(1, -1, 1, 1), Vertex(-1, -1, 0, 1);
    assert v[0] == a && v[1] == b && v[2] == c && v[3] == d;
    assert QuadIndices[3] == 0 && QuadIndices[4] == 2;
    assert Cross(a, b, c) == -4 && Cross(a, c, d) == -4;
    assert v[QuadIndices[0]] == a && v[QuadIndices[1]] == b && v[QuadIndices[2]] == c;
    assert v[QuadIndices[3]] == a && v[QuadIndices[4]] == c && v[QuadIndices[5]] == d;
    assert TriangleCross(v, QuadIndices, 0) == Cross(v[QuadIndices[0]], v[QuadIndices[1]], v[QuadIndices[2]]);
    assert TriangleCross(v, QuadIndices, 1) == Cross(v[QuadIndices[3]], v[QuadIndices[4]], v[QuadIndices[5]]);
  }

  /** Every vertex maps to the texture corner at the same screen corner. */
  lemma QuadTextureCorners()
    ensures forall i :: 0 <= i < |QuadVertices| ==>
      2 * QuadVertices[i].u == QuadVertices[i].x + 1 && 2 * QuadVertices[i].v == 1 - QuadVertices[i].y
  {
    var v := QuadVertices;
    forall i | 0 <= i < |v|
      ensures 2 * v[i].u == v[i].x + 1 && 2 * v[i].v == 1 - v[i].y
    {
      assert i == 0 || i == 1 || i == 2 || i == 3;
    }
  }

  /** The index list draws two triangles over the four vertices only, both clockwise
      (front-facing under the default rasterizer state), whose areas add up to the whole
      2-by-2 clip square; every vertex maps to the texture corner at the same screen
      corner (u = (x + 1) / 2, v = (1 - y) / 2). */
  lemma QuadCoversViewport()
    ensures |QuadIndices| == 6 && forall i :: 0 <= i < |QuadIndices| ==> QuadIndices[i] < |QuadVertices|
    ensures forall k :: 0 <= k < 4 ==> k in QuadIndices
    ensures TriangleCross(QuadVertices, QuadIndices, 0) < 0 && TriangleCross(QuadVertices, QuadIndices, 1) < 0
    ensures -(TriangleCross(QuadVertices, QuadIndices, 0) + TriangleCross(QuadVertices, QuadIndices, 1)) == 2 * (2 * 2)
    ensures forall i :: 0 <= i < |QuadVertices| ==>
      2 * QuadVertices[i].u == QuadVertices[i].x + 1 && 2 * QuadVertices[i].v == 1 - QuadVertices[i].y
  {
    QuadIndicesInRange();
    QuadTrianglesClockwise();
    QuadTextureCorners();
  }

  // ---------------------------------------------------------------------------
  // Texture upload

  datatype Upload = Upload(texture: Option<Texture>, ok: bool)

  /** Creates a w-by-h RGBA texture from packed RGB data, every pixel opaque. The
      texture exists when its creation succeeds; success also needs its view. */
  function CreateTextureFromData(rgb: seq<byte>, w: nat, h: nat, textureOk: bool, viewOk: bool): (r: Upload)
    requires w * h * 3 <= |rgb|
    ensures r.ok <==> textureOk && viewOk
    ensures r.texture.Some? <==> textureOk
    ensures r.texture.Some? ==>
      r.texture.value.width == w && r.texture.value.height == h &&
      |r.texture.value.pixels| == w * h * 4
  {
    if !textureOk then Upload(None, false)
    else Upload(Some(Texture(w, h, ExpandRgbToRgba(rgb, w, h))), viewOk)
  }

  /** A texture created from RGB data is opaque and holds exactly that data: dropping
      its alpha gives the RGB input back. */
  lemma {:induction false} CreateTextureFromDataRoundTrip(rgb: seq<byte>, w: nat, h: nat, viewOk: bool)
    requires |rgb| == w * h * 3
    ensures var t := CreateTextureFromData(rgb, w, h, true, viewOk).texture.value;
      DropAlpha(t.pixels, w, h) == rgb &&
      forall i :: 0 <= i < w * h ==> t.pixels[PixelByte(i, 4, 3)] == 255
  {
    var t := CreateTextureFromData(rgb, w, h, true, viewOk).texture.value;
    DropAlphaOfExpand(rgb, w, h);
    ExpandRgbToRgbaPixels(rgb, w, h);
  }

  /** Creates a w-by-h texture from RGBA data as given. */
  function CreateTextureFromRgba(rgba: seq<byte>, w: nat, h: nat, textureOk: bool, viewOk: bool): (r: Upload)
    requires w * h * 4 <= |rgba|
    ensures r.ok <==> textureOk && viewOk
    ensures r.texture.Some? <==> textureOk
    ensures r.texture.Some? ==>
      r.texture.value.width == w && r.texture.value.height == h &&
      r.texture.value.pixels == rgba[..w * h * 4]
  {
    if !textureOk then Upload(None, false)
    else Upload(Some(Texture(w, h, rgba[..w * h * 4])), viewOk)
  }

  datatype Updated = Updated(texture: Texture, ok: bool)

  /** Replaces a texture's contents with packed RGB data made opaque. There is no
      failure path: the result is always success. */
  function UpdateTextureData(t: Texture, rgb: seq<byte>, w: nat, h: nat): (r: Updated)
    requires w * h * 3 <= |rgb|
    ensures r.ok
    ensures r.texture.width == t.width && r.texture.height == t.height
    ensures |r.texture.pixels| == w * h * 4
  {
    Updated(t.(pixels := ExpandRgbToRgba(rgb, w, h)), true)
  }

  /** Updating a texture writes the same pixels as creating one from the same data. */
  lemma UpdateMatchesCreate(t: Texture, rgb: seq<byte>, w: nat, h: nat)
    requires w * h * 3 <= |rgb|
    ensures UpdateTextureData(t, rgb, w, h).texture.pixels == CreateTextureFromData(rgb, w, h, true, true).texture.value.pixels
  {
  }

  // ---------------------------------------------------------------------------
  // Blend and readback

  datatype Blended = Blended(output: seq<byte>, ok: bool)

  /** Blends the two textures into the render target, copies it to the staging texture
      and, if mapping that succeeds, reads it back into `output` as packed RGB. The
      rendered staging contents (rows `pitch` bytes apart) are a parameter. A failed map
      leaves `output` as it was, and the result is success either way. */
  function BlendTextures(p: Processor, output: seq<byte>, staging: seq<byte>, pitch: nat, mapOk: bool): (r: Blended)
    requires |output| == p.width * p.height * 3
    requires mapOk ==> CoversStrided(|staging|, pitch, p.width, p.height, 4)
    ensures r.ok
    ensures |r.output| == |output|
    ensures !mapOk ==> r.output == output
  {
    if !mapOk then Blended(output, true)
    else Blended(ReadbackRgb(staging, pitch, p.width, p.height), true)
  }

  /** A successful readback writes colour byte c of pixel (y, x) from byte
      `y * pitch + 4 * x + c` of the staging texture, whatever `output` held before. */
  lemma BlendTexturesReadback(p: Processor, output: seq<byte>, staging: seq<byte>, pitch: nat)
    requires |output| == p.width * p.height * 3
    requires CoversStrided(|staging|, pitch, p.width, p.height, 4)
    ensures forall y, x, c :: 0 <= y < p.height && 0 <= x < p.width && 0 <= c < 3 ==>
      TightIndex(p.width, 3, y, x, c) < |output| && StridedIndex(pitch, 4, y, x, c) < |staging| &&
      BlendTextures(p, output, staging, pitch, true).output[TightIndex(p.width, 3, y, x, c)] ==
        staging[StridedIndex(pitch, 4, y, x, c)]
  {
    ReadbackRgbPixels(staging, pitch, p.width, p.height);
  }

  /** If the rendered frame is an opaque RGB frame uploaded row by row into a padded
      staging texture, readback returns that frame. */
  lemma BlendTexturesRoundTrip(p: Processor, output: seq<byte>, rgb: seq<byte>, pitch: nat, dst: seq<byte>)
    requires |output| == p.width * p.height * 3 && |rgb| == p.width * p.height * 3
    requires CoversStrided(|dst|, pitch, p.width * 4, p.height, 1)
    ensures (p.width * 4) * p.height == p.width * p.height * 4
    ensures CoversStrided(|dst|, pitch, p.width, p.height, 4)
    ensures BlendTextures(p, output,
      PackRows(ExpandRgbToRgba(rgb, p.width, p.height), p.width * 4, p.height, pitch, dst), pitch, true).output == rgb
  {
    ReadbackOfPaddedExpansion(rgb, p.width, p.height, pitch, dst);
  }
}
