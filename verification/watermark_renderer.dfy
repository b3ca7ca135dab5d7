/** The watermark images. A text watermark is drawn as a grid of tiles by Direct2D
    onto a transparent bitmap; a PNG watermark is scaled to fit the video and
    centred on a transparent frame of the video's size. Rasterisation, decoding and
    scaling are library calls whose pixels are parameters here; both images come out
    as tightly packed RGBA with alpha kept. */
module WatermarkRenderer {
  import opened Prelude
  import opened Layout
  import opened Pixels

  // ---------------------------------------------------------------------------
  // Factories

  /** The factories the renderer creates once, in order. */
  datatype FactoryStep = CreateD2DFactory | CreateWriteFactory

  const FactoryOrder: seq<FactoryStep> := [CreateD2DFactory, CreateWriteFactory]

  datatype Factories = Factories(ok: bool, attempted: seq<FactoryStep>)

  /** Creates the Direct2D factory and then the DirectWrite factory; a failure of the
      first skips the second. */
  function Initialize(stepOk: FactoryStep -> bool): (r: Factories)
    ensures r.attempted == FailFast(FactoryOrder, stepOk)
    ensures r.ok <==> stepOk(CreateD2DFactory) && stepOk(CreateWriteFactory)
    ensures !stepOk(CreateD2DFactory) ==> r.attempted == [CreateD2DFactory]
  {
    FailFastFirstFailure(FactoryOrder, stepOk);
    var ran := FailFast(FactoryOrder, stepOk);
    assert FactoryOrder[0] == CreateD2DFactory && FactoryOrder[1] == CreateWriteFactory;
    Factories(ran == FactoryOrder && stepOk(CreateWriteFactory), ran)
  }

  // ---------------------------------------------------------------------------
  // The tile grid of the text watermark

  /** Distance between tile origins, across and down. */
  const TileStepX: nat := 280
  const TileStepY: nat := 120
  /** The first tile starts this far left of and above the frame. */
  const TileOriginX: int := -100
  const TileOriginY: int := -50
  /** Tiles keep being laid out until their origin passes this far beyond the frame. */
  const TileMarginX: nat := 100
  const TileMarginY: nat := 50
  /** The layout box of one tile of text. */
  const TileBoxWidth: nat := 500
  const TileBoxHeight: nat := 100

  /** The origins `start, start + step, ...` that lie before `bound`: the values a
      `for (v = start; v < bound; v += step)` loop takes. */
  function TileAxis(start: int, step: nat, bound: int): (origins: seq<int>)
    requires step > 0
    ensures forall k :: 0 <= k < |origins| ==> origins[k] == start + k * step && origins[k] < bound
    ensures start + |origins| * step >= bound
    decreases bound - start
  {
    if start >= bound then []
    else
      var rest := TileAxis(start + step, step, bound);
      var origins := [start] + rest;
      assert forall k :: 0 <= k < |origins| ==> origins[k] == start + k * step && origins[k] < bound by {
        forall k | 1 <= k < |origins|
          ensures origins[k] == start + k * step
        {
          AxisStep(start, step, k);
        }
      }
      AxisStep(start, step, |origins|);
      origins
  }

  /** One step further along an axis, counted from the next origin. */
  lemma AxisStep(start: int, step: nat, k: nat)
    requires k >= 1
    ensures (start + step) + (k - 1) * step == start + k * step
  {
  }

  /** The loop runs `ceil((bound - start) / step)` times, and never when `bound <= start`. */
  lemma {:induction false} TileAxisLength(start: int, step: nat, bound: int)
    requires step > 0
    ensures |TileAxis(start, step, bound)| == if bound <= start then 0 else (bound - start + step - 1) / step
  {
    var o := TileAxis(start, step, bound);
    var n := |o|;
    if bound > start && n > 0 {
      assert o[n - 1] == start + (n - 1) * step < bound;
      assert (n - 1) * step + step == n * step;
      DivModUnique(bound - start + step - 1, step, n, bound - start + step - 1 - n * step);
    }
  }

  /** Every value from `start` up to `bound` lies in the band `[origin, origin + step)`
      of some origin the loop visits. */
  lemma TileAxisCovers(start: int, step: nat, bound: int, v: int) returns (k: nat)
    requires step > 0 && start <= v < bound
    ensures k < |TileAxis(start, step, bound)|
    ensures TileAxis(start, step, bound)[k] <= v < TileAxis(start, step, bound)[k] + step
  {
    var o := TileAxis(start, step, bound);
    k := (v - start) / step;
    assert start + k * step <= v < start + k * step + step;
    if k >= |o| {
      MulLeft(|o|, k, step);
      assert false;
    }
  }

  /** A value whose offset from `start` falls at or after `extent` within its period
      lies in no band `[origin, origin + extent)`. */
  lemma TileAxisGap(start: int, step: nat, bound: int, extent: nat, v: int)
    requires 0 < extent <= step && start <= v && (v - start) % step >= extent
    ensures forall k :: 0 <= k < |TileAxis(start, step, bound)| ==>
      !(TileAxis(start, step, bound)[k] <= v < TileAxis(start, step, bound)[k] + extent)
  {
    var o := TileAxis(start, step, bound);
    forall k | 0 <= k < |o| && o[k] <= v < o[k] + extent
      ensures false
    {
      DivModUnique(v - start, step, k, v - o[k]);
    }
  }

  /** Tile rows of a frame `height` pixels high, and tile columns of one `width` wide. */
  function TileRows(height: int): (ys: seq<int>)
  {
    TileAxis(TileOriginY, TileStepY, height + TileMarginY)
  }

  function TileColumns(width: int): (xs: seq<int>)
  {
    TileAxis(TileOriginX, TileStepX, width + TileMarginX)
  }

  /** A layout rectangle, edges in pixels. */
  datatype Rect = Rect(left: int, top: int, right: int, bottom: int)

  /** The layout box of the tile whose top-left corner is (x, y). */
  function TileBox(y: int, x: int): Rect
  {
    Rect(x, y, x + TileBoxWidth, y + TileBoxHeight)
  }

  /** The tiles in drawing order: row by row from the top, left to right in a row. */
  function TileGrid(width: int, height: int): (tiles: seq<Rect>)
    ensures |tiles| == |TileColumns(width)| * |TileRows(height)|
  {
    var ys, xs := TileRows(height), TileColumns(width);
    seq(|xs| * |ys|, i requires 0 <= i < |xs| * |ys| =>
      RowDecompose(i, |xs|, |ys|);
      TileBox(ys[i / |xs|], xs[i % |xs|]))
  }

  /** The tile of row `ky` and column `kx` is drawn as number `ky * columns + kx`,
      with its box at that row's and that column's origin. */
  lemma TileGridAt(width: int, height: int, ky: nat, kx: nat)
    requires ky < |TileRows(height)| && kx < |TileColumns(width)|
    ensures RowByte(|TileColumns(width)|, ky, kx) < |TileGrid(width, height)|
    ensures TileGrid(width, height)[RowByte(|TileColumns(width)|, ky, kx)] ==
      Rect(TileOriginX + kx * TileStepX, TileOriginY + ky * TileStepY,
           TileOriginX + kx * TileStepX + TileBoxWidth, TileOriginY + ky * TileStepY + TileBoxHeight)
  {
    var nx, ny := |TileColumns(width)|, |TileRows(height)|;
    MulLeft(ky + 1, ny, nx);
    DivModUnique(RowByte(nx, ky, kx), nx, ky, kx);
  }

  /** Horizontally the tiles overlap: every column of the frame, and of the margin
      either side of it, lies inside the box of some tile column. */
  lemma TilesSpanEveryColumn(width: int, x: int) returns (kx: nat)
    requires TileOriginX <= x < width + TileMarginX
    ensures kx < |TileColumns(width)|
    ensures TileColumns(width)[kx] <= x < TileColumns(width)[kx] + TileBoxWidth
  {
    kx := TileAxisCovers(TileOriginX, TileStepX, width + TileMarginX, x);
  }

  /** Vertically the tiles do not touch: the last twenty rows of every period of
      `TileStepY` rows lie in no tile's box. */
  lemma TileRowsLeaveGaps(height: int, y: int)
    requires TileOriginY <= y && (y - TileOriginY) % TileStepY >= TileBoxHeight
    ensures forall ky :: 0 <= ky < |TileRows(height)| ==>
      !(TileRows(height)[ky] <= y < TileRows(height)[ky] + TileBoxHeight)
  {
    TileAxisGap(TileOriginY, TileStepY, height + TileMarginY, TileBoxHeight, y);
  }

  // ---------------------------------------------------------------------------
  // The tiled text watermark

  /** The steps of drawing the text watermark, in order. Creating the brush, starting
      the drawing, clearing and drawing the text are not checked. */
  datatype TiledStep = CreateImagingFactory | CreateBitmap | CreateRenderTarget | CreateTextFormat |
                       EndDraw | CopyTiledPixels

  const TiledOrder: seq<TiledStep> :=
    [CreateImagingFactory, CreateBitmap, CreateRenderTarget, CreateTextFormat, EndDraw, CopyTiledPixels]

  /** The result: success, the steps attempted, the tile boxes drawn, and the caller's
      output buffer afterwards. */
  datatype Tiled = Tiled(ok: bool, attempted: seq<TiledStep>, drawn: seq<Rect>, data: seq<byte>)

  /** Draws the tiled text watermark on a transparent `width`-by-`height` bitmap and
      copies it out as RGBA. `bitmap` is what the rasteriser leaves in the BGRA bitmap;
      `data` is the caller's buffer, resized only once drawing has finished. */
  function CreateTiledWatermark(width: nat, height: nat, stepOk: TiledStep -> bool,
                                bitmap: seq<byte>, data: seq<byte>): (r: Tiled)
    requires |bitmap| == width * height * 4
    ensures r.attempted == FailFast(TiledOrder, stepOk)
    ensures r.ok <==> AllSucceeded(TiledOrder, stepOk)
    ensures r.drawn == if EndDraw in r.attempted then TileGrid(width, height) else []
    ensures r.ok ==> r.data == SwapRedBlueBytes(bitmap, width, height)
    ensures r.ok ==> |r.data| == width * height * 4 && SwapRedBlueBytes(r.data, width, height) == bitmap
    ensures !r.ok && CopyTiledPixels in r.attempted ==> r.data == Resize(data, width * height * 4)
    ensures CopyTiledPixels !in r.attempted ==> r.data == data
  {
    FailFastFirstFailure(TiledOrder, stepOk);
    var ran := FailFast(TiledOrder, stepOk);
    var drawn := if EndDraw in ran then TileGrid(width, height) else [];
    if ran == TiledOrder && stepOk(CopyTiledPixels) then
      SwapRedBlueBytesInvolution(bitmap, width, height);
      Tiled(true, ran, drawn, SwapRedBlueBytes(bitmap, width, height))
    else if CopyTiledPixels in ran then Tiled(false, ran, drawn, Resize(data, width * height * 4))
    else Tiled(false, ran, drawn, data)
  }

  // ---------------------------------------------------------------------------
  // Centred placement of the PNG watermark

  /** The scaled watermark's size and the frame's size. */
  datatype Fit = Fit(scaledWidth: nat, scaledHeight: nat, targetWidth: nat, targetHeight: nat)

  /** The aspect-preserving scale makes the watermark no larger than the frame. */
  predicate Fits(g: Fit)
  {
    g.scaledWidth <= g.targetWidth && g.scaledHeight <= g.targetHeight
  }

  /** The offset that centres the watermark, rounded toward the top left. */
  function OffsetX(g: Fit): (ox: nat)
    requires Fits(g)
    ensures ox + g.scaledWidth <= g.targetWidth
  {
    (g.targetWidth - g.scaledWidth) / 2
  }

  function OffsetY(g: Fit): (oy: nat)
    requires Fits(g)
    ensures oy + g.scaledHeight <= g.targetHeight
  {
    (g.targetHeight - g.scaledHeight) / 2
  }

  /** Frame pixel (ty, tx) is covered by the centred watermark. */
  predicate Covered(g: Fit, ty: nat, tx: nat)
    requires Fits(g)
  {
    OffsetY(g) <= ty < OffsetY(g) + g.scaledHeight && OffsetX(g) <= tx < OffsetX(g) + g.scaledWidth
  }

  /** The intended image, defined pixel by pixel on the frame: a covered pixel is the
      watermark pixel under it with red and blue exchanged, every other pixel is
      transparent black. */
  function Centered(scaled: seq<byte>, g: Fit): (img: seq<byte>)
    requires Fits(g) && |scaled| == g.scaledWidth * g.scaledHeight * 4
    ensures |img| == g.targetWidth * g.targetHeight * 4
  {
    var tw, th := g.targetWidth, g.targetHeight;
    seq(tw * th * 4, k requires 0 <= k < tw * th * 4 =>
      TightDecompose(k, tw, th, 4);
      var ty, tx, c := RowOf(k, tw, 4), ColumnOf(k, tw, 4), ChannelOf(k, 4);
      if Covered(g, ty, tx) then
        TightIndexBound(g.scaledWidth, g.scaledHeight, 4, ty - OffsetY(g), tx - OffsetX(g), SwapRedBlue(c));
        scaled[TightIndex(g.scaledWidth, 4, ty - OffsetY(g), tx - OffsetX(g), SwapRedBlue(c))]
      else 0)
  }

  /** Channel c of frame pixel (ty, tx) of the intended image. */
  lemma CenteredAt(scaled: seq<byte>, g: Fit, ty: nat, tx: nat, c: nat)
    requires Fits(g) && |scaled| == g.scaledWidth * g.scaledHeight * 4
    requires ty < g.targetHeight && tx < g.targetWidth && c < 4
    ensures TightIndex(g.targetWidth, 4, ty, tx, c) < g.targetWidth * g.targetHeight * 4
    ensures Covered(g, ty, tx) ==>
      TightIndex(g.scaledWidth, 4, ty - OffsetY(g), tx - OffsetX(g), SwapRedBlue(c)) < |scaled|
    ensures Centered(scaled, g)[TightIndex(g.targetWidth, 4, ty, tx, c)] ==
      if Covered(g, ty, tx) then scaled[TightIndex(g.scaledWidth, 4, ty - OffsetY(g), tx - OffsetX(g), SwapRedBlue(c))]
      else 0
  {
    TightIndexBound(g.targetWidth, g.targetHeight, 4, ty, tx, c);
    TightIndexInverse(g.targetWidth, 4, ty, tx, c);
    if Covered(g, ty, tx) {
      TightIndexBound(g.scaledWidth, g.scaledHeight, 4, ty - OffsetY(g), tx - OffsetX(g), SwapRedBlue(c));
    }
  }

  /** The inputs the placement loops work on: a zero-filled frame-sized buffer being
      written, and the scaled BGRA watermark. */
  predicate PlaceInputs(out: seq<byte>, scaled: seq<byte>, g: Fit)
  {
    Fits(g) && |scaled| == g.scaledWidth * g.scaledHeight * 4 && |out| == g.targetWidth * g.targetHeight * 4
  }

  /** A BGRA pixel as RGBA, or back: red and blue exchanged. */
  function SwapPixel(p: Px): (q: Px)
    ensures forall c :: 0 <= c < 4 ==> Channel(q, c) == Channel(p, SwapRedBlue(c))
  {
    Px(p.c2, p.c1, p.c0, p.c3)
  }

  /** One iteration of the placement loop: watermark pixel (y, x) goes to frame pixel
      (y + offsetY, x + offsetX), red and blue exchanged, if that pixel is inside the
      frame. */
  function PlacePixel(out: seq<byte>, scaled: seq<byte>, g: Fit, y: nat, x: nat): (r: seq<byte>)
    requires PlaceInputs(out, scaled, g) && y < g.scaledHeight && x < g.scaledWidth
    ensures |r| == |out|
  {
    var ty, tx := y + OffsetY(g), x + OffsetX(g);
    if 0 <= tx < g.targetWidth && 0 <= ty < g.targetHeight then
      TightIndexBound(g.scaledWidth, g.scaledHeight, 4, y, x, 3);
      TightIndexBound(g.targetWidth, g.targetHeight, 4, ty, tx, 3);
      PutPixel(out, g.targetWidth, ty, tx, SwapPixel(PixelAt(scaled, g.scaledWidth, y, x)))
    else out
  }

  /** The inner loop: columns `0 .. n-1` of watermark row y. */
  function PlaceRow(out: seq<byte>, scaled: seq<byte>, g: Fit, y: nat, n: nat): (r: seq<byte>)
    requires PlaceInputs(out, scaled, g) && y < g.scaledHeight && n <= g.scaledWidth
    ensures |r| == |out|
  {
    if n == 0 then out else PlacePixel(PlaceRow(out, scaled, g, y, n - 1), scaled, g, y, n - 1)
  }

  /** The outer loop: watermark rows `0 .. m-1`, each in full. */
  function PlaceRows(out: seq<byte>, scaled: seq<byte>, g: Fit, m: nat): (r: seq<byte>)
    requires PlaceInputs(out, scaled, g) && m <= g.scaledHeight
    ensures |r| == |out|
  {
    if m == 0 then out else PlaceRow(PlaceRows(out, scaled, g, m - 1), scaled, g, m - 1, g.scaledWidth)
  }

  /** The placement as written: fill the frame with zeros, then run both loops. */
  function PlaceScaled(scaled: seq<byte>, g: Fit): (img: seq<byte>)
    requires Fits(g) && |scaled| == g.scaledWidth * g.scaledHeight * 4
    ensures |img| == g.targetWidth * g.targetHeight * 4
  {
    PlaceRows(Zeros(g.targetWidth * g.targetHeight * 4), scaled, g, g.scaledHeight)
  }

  /** One iteration writes the four bytes of its own frame pixel and no other byte. */
  lemma PlacePixelAt(out: seq<byte>, scaled: seq<byte>, g: Fit, y: nat, x: nat, ty: nat, tx: nat, c: nat)
    requires PlaceInputs(out, scaled, g) && y < g.scaledHeight && x < g.scaledWidth
    requires ty < g.targetHeight && tx < g.targetWidth && c < 4
    ensures TightIndex(g.targetWidth, 4, ty, tx, c) < |out|
    ensures TightIndex(g.scaledWidth, 4, y, x, SwapRedBlue(c)) < |scaled|
    ensures PlacePixel(out, scaled, g, y, x)[TightIndex(g.targetWidth, 4, ty, tx, c)] ==
      if ty == y + OffsetY(g) && tx == x + OffsetX(g) then scaled[TightIndex(g.scaledWidth, 4, y, x, SwapRedBlue(c))]
      else out[TightIndex(g.targetWidth, 4, ty, tx, c)]
  {
    TightIndexBound(g.targetWidth, g.targetHeight, 4, ty, tx, c);
    TightIndexBound(g.scaledWidth, g.scaledHeight, 4, y, x, 3);
    var ty0, tx0 := y + OffsetY(g), x + OffsetX(g);
    TightIndexBound(g.targetWidth, g.targetHeight, 4, ty0, tx0, 3);
    var p := SwapPixel(PixelAt(scaled, g.scaledWidth, y, x));
    assert PlacePixel(out, scaled, g, y, x) == PutPixel(out, g.targetWidth, ty0, tx0, p);
    PutPixelAt(out, g.targetWidth, ty0, tx0, p, ty, tx, c);
    PixelAtChannel(scaled, g.scaledWidth, y, x, SwapRedBlue(c));
  }

  /** After the inner loop has done columns `0 .. n-1` of row y, a frame pixel one of
      those columns landed on holds that column's watermark bytes. */
  lemma {:induction false} PlaceRowHit(out: seq<byte>, scaled: seq<byte>, g: Fit, y: nat, n: nat, tx: nat, c: nat)
    requires PlaceInputs(out, scaled, g) && y < g.scaledHeight && n <= g.scaledWidth && c < 4
    requires OffsetX(g) <= tx < OffsetX(g) + n
    ensures TightIndex(g.targetWidth, 4, y + OffsetY(g), tx, c) < |out|
    ensures TightIndex(g.scaledWidth, 4, y, tx - OffsetX(g), SwapRedBlue(c)) < |scaled|
    ensures PlaceRow(out, scaled, g, y, n)[TightIndex(g.targetWidth, 4, y + OffsetY(g), tx, c)] ==
      scaled[TightIndex(g.scaledWidth, 4, y, tx - OffsetX(g), SwapRedBlue(c))]
  {
    var prev := PlaceRow(out, scaled, g, y, n - 1);
    assert PlaceRow(out, scaled, g, y, n) == PlacePixel(prev, scaled, g, y, n - 1);
    PlacePixelAt(prev, scaled, g, y, n - 1, y + OffsetY(g), tx, c);
    if tx < OffsetX(g) + n - 1 {
      PlaceRowHit(out, scaled, g, y, n - 1, tx, c);
    }
  }

  /** ... and every other frame pixel is unchanged. */
  lemma {:induction false} PlaceRowMiss(out: seq<byte>, scaled: seq<byte>, g: Fit, y: nat, n: nat, ty: nat, tx: nat, c: nat)
    requires PlaceInputs(out, scaled, g) && y < g.scaledHeight && n <= g.scaledWidth
    requires ty < g.targetHeight && tx < g.targetWidth && c < 4
    requires !(ty == y + OffsetY(g) && OffsetX(g) <= tx < OffsetX(g) + n)
    ensures TightIndex(g.targetWidth, 4, ty, tx, c) < |out|
    ensures PlaceRow(out, scaled, g, y, n)[TightIndex(g.targetWidth, 4, ty, tx, c)] ==
      out[TightIndex(g.targetWidth, 4, ty, tx, c)]
  {
    TightIndexBound(g.targetWidth, g.targetHeight, 4, ty, tx, c);
    if n > 0 {
      var prev := PlaceRow(out, scaled, g, y, n - 1);
      assert PlaceRow(out, scaled, g, y, n) == PlacePixel(prev, scaled, g, y, n - 1);
      PlacePixelAt(prev, scaled, g, y, n - 1, ty, tx, c);
      PlaceRowMiss(out, scaled, g, y, n - 1, ty, tx, c);
    }
  }

  /** After the inner loop has done columns `0 .. n-1` of row y, exactly the frame
      pixels those columns land on hold watermark bytes; the rest are unchanged. */
  lemma PlaceRowAt(out: seq<byte>, scaled: seq<byte>, g: Fit, y: nat, n: nat, ty: nat, tx: nat, c: nat)
    requires PlaceInputs(out, scaled, g) && y < g.scaledHeight && n <= g.scaledWidth
    requires ty < g.targetHeight && tx < g.targetWidth && c < 4
    ensures TightIndex(g.targetWidth, 4, ty, tx, c) < |out|
    ensures ty == y + OffsetY(g) && OffsetX(g) <= tx < OffsetX(g) + n ==>
      TightIndex(g.scaledWidth, 4, y, tx - OffsetX(g), SwapRedBlue(c)) < |scaled|
    ensures PlaceRow(out, scaled, g, y, n)[TightIndex(g.targetWidth, 4, ty, tx, c)] ==
      if ty == y + OffsetY(g) && OffsetX(g) <= tx < OffsetX(g) + n then
        scaled[TightIndex(g.scaledWidth, 4, y, tx - OffsetX(g), SwapRedBlue(c))]
      else out[TightIndex(g.targetWidth, 4, ty, tx, c)]
  {
    if ty == y + OffsetY(g) && OffsetX(g) <= tx < OffsetX(g) + n {
      PlaceRowHit(out, scaled, g, y, n, tx, c);
    } else {
      PlaceRowMiss(out, scaled, g, y, n, ty, tx, c);
    }
  }

  /** After the outer loop has done rows `0 .. m-1`, exactly the frame pixels those
      rows land on hold watermark bytes; the rest are unchanged. */
  lemma {:induction false} PlaceRowsAt(out: seq<byte>, scaled: seq<byte>, g: Fit, m: nat, ty: nat, tx: nat, c: nat)
    requires PlaceInputs(out, scaled, g) && m <= g.scaledHeight
    requires ty < g.targetHeight && tx < g.targetWidth && c < 4
    ensures TightIndex(g.targetWidth, 4, ty, tx, c) < |out|
    ensures OffsetY(g) <= ty < OffsetY(g) + m && OffsetX(g) <= tx < OffsetX(g) + g.scaledWidth ==>
      TightIndex(g.scaledWidth, 4, ty - OffsetY(g), tx - OffsetX(g), SwapRedBlue(c)) < |scaled|
    ensures PlaceRows(out, scaled, g, m)[TightIndex(g.targetWidth, 4, ty, tx, c)] ==
      if OffsetY(g) <= ty < OffsetY(g) + m && OffsetX(g) <= tx < OffsetX(g) + g.scaledWidth then
        scaled[TightIndex(g.scaledWidth, 4, ty - OffsetY(g), tx - OffsetX(g), SwapRedBlue(c))]
      else out[TightIndex(g.targetWidth, 4, ty, tx, c)]
  {
    TightIndexBound(g.targetWidth, g.targetHeight, 4, ty, tx, c);
    if m > 0 {
      PlaceRowsAt(out, scaled, g, m - 1, ty, tx, c);
      PlaceRowAt(PlaceRows(out, scaled, g, m - 1), scaled, g, m - 1, g.scaledWidth, ty, tx, c);
    }
  }

  /** Each byte of each frame pixel is placed as intended. */
  lemma PlaceScaledAt(scaled: seq<byte>, g: Fit, ty: nat, tx: nat, c: nat)
    requires Fits(g) && |scaled| == g.scaledWidth * g.scaledHeight * 4
    requires ty < g.targetHeight && tx < g.targetWidth && c < 4
    ensures TightIndex(g.targetWidth, 4, ty, tx, c) < g.targetWidth * g.targetHeight * 4
    ensures PlaceScaled(scaled, g)[TightIndex(g.targetWidth, 4, ty, tx, c)] ==
      Centered(scaled, g)[TightIndex(g.targetWidth, 4, ty, tx, c)]
  {
    var zero := Zeros(g.targetWidth * g.targetHeight * 4);
    PlaceRowsAt(zero, scaled, g, g.scaledHeight, ty, tx, c);
    CenteredAt(scaled, g, ty, tx, c);
  }

  /** The placement loops produce the intended centred image. */
  lemma PlaceScaledIsCentered(scaled: seq<byte>, g: Fit)
    requires Fits(g) && |scaled| == g.scaledWidth * g.scaledHeight * 4
    ensures PlaceScaled(scaled, g) == Centered(scaled, g)
  {
    var tw, th := g.targetWidth, g.targetHeight;
    var placed, intended := PlaceScaled(scaled, g), Centered(scaled, g);
    forall k | 0 <= k < tw * th * 4
      ensures placed[k] == intended[k]
    {
      var ty, tx, c := TightSplit(k, tw, th, 4);
      PlaceScaledAt(scaled, g, ty, tx, c);
    }
  }

  // ---------------------------------------------------------------------------
  // Transparency count

  /** The number of the first n pixels whose alpha is not zero. */
  function NonTransparent(img: seq<byte>, n: nat): (count: nat)
    requires 4 * n <= |img|
    ensures count <= n
  {
    if n == 0 then 0
    else NonTransparent(img, n - 1) + (if img[PixelByte(n - 1, 4, 3)] > 0 then 1 else 0)
  }

  /** No pixel counts exactly when every alpha is zero. */
  lemma {:induction false} NonTransparentZero(img: seq<byte>, n: nat)
    requires 4 * n <= |img|
    ensures NonTransparent(img, n) == 0 <==> forall i :: 0 <= i < n ==> img[PixelByte(i, 4, 3)] == 0
  {
    if n > 0 {
      NonTransparentZero(img, n - 1);
    }
  }

  /** The counting loop: visits bytes 3, 7, 11, ... of the buffer and counts the
      non-zero ones, that is, the pixels that are not fully transparent. */
  method CountNonTransparent(img: seq<byte>) returns (count: nat)
    ensures count == NonTransparent(img, |img| / 4)
  {
    count := 0;
    var i := 3;
    ghost var j: nat := 0;
    while i < |img|
      invariant i == PixelByte(j, 4, 3) && 4 * j <= |img|
      invariant count == NonTransparent(img, j)
      decreases |img| - i
    {
      if img[i] > 0 {
        count := count + 1;
      }
      i := i + 4;
      j := j + 1;
    }
    assert j == |img| / 4;
  }

  // ---------------------------------------------------------------------------
  // The PNG watermark

  /** The steps of loading the PNG watermark, in order. */
  datatype PngStep = CreatePngFactory | CreateDecoder | GetFrame | CreateConverter | InitializeConverter |
                     CreateScaler | InitializeScaler | CopyScaledPixels

  const PngOrder: seq<PngStep> :=
    [CreatePngFactory, CreateDecoder, GetFrame, CreateConverter, InitializeConverter,
     CreateScaler, InitializeScaler, CopyScaledPixels]

  /** The result: success, the steps attempted, the caller's buffer afterwards, and the
      number of non-transparent pixels that was reported. */
  datatype Loaded = Loaded(ok: bool, attempted: seq<PngStep>, data: seq<byte>, nonTransparent: nat)

  /** Loads a PNG watermark for a `targetWidth`-by-`targetHeight` frame: decode, convert
      to BGRA, scale to the aspect-fit size `g.scaledWidth` by `g.scaledHeight` (read
      into `scaled`), then centre on a transparent frame as RGBA. A watermark that
      turns out fully transparent is reported but still accepted. */
  function LoadWatermarkFromPng(stepOk: PngStep -> bool, g: Fit, scaled: seq<byte>, data: seq<byte>): (r: Loaded)
    requires Fits(g) && |scaled| == g.scaledWidth * g.scaledHeight * 4
    ensures r.attempted == FailFast(PngOrder, stepOk)
    ensures r.ok <==> AllSucceeded(PngOrder, stepOk)
    ensures !r.ok ==> r.data == data
    ensures r.ok ==> r.data == Centered(scaled, g)
    ensures r.ok ==> (r.nonTransparent == 0 <==>
      forall i :: 0 <= i < g.targetWidth * g.targetHeight ==> r.data[PixelByte(i, 4, 3)] == 0)
  {
    FailFastFirstFailure(PngOrder, stepOk);
    var ran := FailFast(PngOrder, stepOk);
    if ran == PngOrder && stepOk(CopyScaledPixels) then
      var img := PlaceScaled(scaled, g);
      PlaceScaledIsCentered(scaled, g);
      NonTransparentZero(img, g.targetWidth * g.targetHeight);
      Loaded(true, ran, img, NonTransparent(img, g.targetWidth * g.targetHeight))
    else Loaded(false, ran, data, 0)
  }
}
