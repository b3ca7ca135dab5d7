/** Decoding of the three pointer shape formats that desktop duplication reports
    into a tightly packed w-by-h BGRA sprite. A shape buffer holds either two
    1-bit masks (monochrome: AND mask, then XOR mask), rows of 32-bit BGRA pixels
    (colour), or BGRA pixels followed by a 1-bit mask (masked colour). Every
    mask row is `pitch` bytes long and column x sits in bit `7 - x % 8` of byte
    `x / 8`. The decoders perform no length check on the buffer; the model
    returns None where a read would fall outside it. */
module CursorShape {
  import opened Prelude
  import opened Layout
  import opened Pixels

  /** The pointer shape formats the cursor renderer distinguishes. */
  datatype ShapeType = Monochrome | Color | MaskedColor

  /** DXGI_OUTDUPL_POINTER_SHAPE_TYPE code of a format. */
  function ShapeCode(t: ShapeType): (code: int)
    ensures code in {1, 2, 4}
  {
    match t
    case Monochrome => 1
    case Color => 2
    case MaskedColor => 4
  }

  /** The format named by a shape type code; any other code is not a format the
      renderer handles. */
  function ShapeTypeOf(code: int): (t: Option<ShapeType>)
    ensures t.Some? <==> code in {1, 2, 4}
    ensures t.Some? ==> ShapeCode(t.value) == code
  {
    if code == 1 then Some(Monochrome)
    else if code == 2 then Some(Color)
    else if code == 4 then Some(MaskedColor)
    else None
  }

  /** Codes and formats correspond one to one. */
  lemma ShapeCodeRoundTrip(t: ShapeType, code: int)
    ensures ShapeTypeOf(ShapeCode(t)) == Some(t)
    ensures ShapeTypeOf(code) == Some(t) <==> code == ShapeCode(t)
  {
  }

  // ---------------------------------------------------------------------------
  // 1-bit masks

  /** Byte offset of column x of row y in a mask that starts at `offset`. */
  function MaskByteIndex(offset: nat, pitch: nat, y: nat, x: nat): nat
  {
    offset + RowByte(pitch, y, x / 8)
  }

  /** The mask bit of pixel (y, x); the leftmost column is the most significant bit. */
  function MaskBit(buf: seq<byte>, offset: nat, pitch: nat, y: nat, x: nat): bool
    requires MaskByteIndex(offset, pitch, y, x) < |buf|
  {
    Bit(buf[MaskByteIndex(offset, pitch, y, x)], 7 - x % 8)
  }

  /** Every mask bit of a w-by-h mask starting at `offset` lies inside a buffer of `len` bytes. */
  predicate MaskInside(len: nat, offset: nat, pitch: nat, w: nat, h: nat)
  {
    w == 0 || h == 0 || offset + (h - 1) * pitch + (w - 1) / 8 < len
  }

  lemma MaskIndexBound(len: nat, offset: nat, pitch: nat, w: nat, h: nat, y: nat, x: nat)
    requires MaskInside(len, offset, pitch, w, h)
    requires y < h && x < w
    ensures MaskByteIndex(offset, pitch, y, x) < len
  {
    MulLeft(y, h - 1, pitch);
    assert x / 8 <= (w - 1) / 8;
  }

  /** Every bit of a w-by-h mask starting at `offset` is set. */
  predicate AllMaskBitsSet(buf: seq<byte>, offset: nat, pitch: nat, w: nat, h: nat)
  {
    forall y, x :: 0 <= y < h && 0 <= x < w ==>
      MaskByteIndex(offset, pitch, y, x) < |buf| && MaskBit(buf, offset, pitch, y, x)
  }

  // ---------------------------------------------------------------------------
  // Monochrome pointers

  /** The colour of a monochrome pointer pixel, by its AND and XOR mask bits:
      AND=1/XOR=0 is transparent, AND=0/XOR=0 is opaque black, and XOR=1 (with
      either AND bit) is opaque white, the screen-inverting case drawn as white. */
  function MonoColor(andBit: bool, xorBit: bool): (p: Px)
    ensures p.c0 == p.c1 == p.c2
    ensures p.c3 == 0 <==> andBit && !xorBit
    ensures p.c3 != 0 ==> p.c3 == 255
    ensures p.c0 == 255 <==> xorBit
    ensures p.c0 != 255 ==> p.c0 == 0
  {
    if xorBit then Px(255, 255, 255, 255)
    else if andBit then Px(0, 0, 0, 0)
    else Px(0, 0, 0, 255)
  }

  /** Both masks of a w-by-h monochrome pointer lie inside its buffer; the XOR mask
      starts right after the `h * pitch` bytes of the AND mask. */
  predicate MonochromeInside(len: nat, w: nat, h: nat, pitch: nat)
  {
    MaskInside(len, 0, pitch, w, h) && MaskInside(len, h * pitch, pitch, w, h)
  }

  /** The colour of pixel (y, x) of a monochrome pointer. */
  function MonoPixel(buf: seq<byte>, w: nat, h: nat, pitch: nat, y: nat, x: nat): Px
    requires MonochromeInside(|buf|, w, h, pitch) && y < h && x < w
  {
    MaskIndexBound(|buf|, 0, pitch, w, h, y, x);
    MaskIndexBound(|buf|, h * pitch, pitch, w, h, y, x);
    MonoColor(MaskBit(buf, 0, pitch, y, x), MaskBit(buf, h * pitch, pitch, y, x))
  }

  /** The BGRA sprite of a monochrome pointer: one pixel per mask bit pair. */
  function DecodeMonochrome(buf: seq<byte>, w: nat, h: nat, pitch: nat): (r: Option<seq<byte>>)
    ensures r.Some? <==> MonochromeInside(|buf|, w, h, pitch)
    ensures r.Some? ==> |r.value| == w * h * 4
  {
    if !MonochromeInside(|buf|, w, h, pitch) then None
    else Some(seq(w * h * 4, k requires 0 <= k < w * h * 4 =>
      TightDecompose(k, w, h, 4);
      Channel(MonoPixel(buf, w, h, pitch, RowOf(k, w, 4), ColumnOf(k, w, 4)), ChannelOf(k, 4))))
  }

  /** Pixel (y, x) of a decoded monochrome pointer is the truth-table colour of its
      AND bit and XOR bit. */
  lemma DecodeMonochromePixels(buf: seq<byte>, w: nat, h: nat, pitch: nat)
    requires MonochromeInside(|buf|, w, h, pitch)
    ensures forall y, x :: 0 <= y < h && 0 <= x < w ==>
      TightIndex(w, 4, y, x, 3) < w * h * 4 &&
      MaskByteIndex(0, pitch, y, x) < |buf| && MaskByteIndex(h * pitch, pitch, y, x) < |buf| &&
      PixelAt(DecodeMonochrome(buf, w, h, pitch).value, w, y, x) ==
        MonoColor(MaskBit(buf, 0, pitch, y, x), MaskBit(buf, h * pitch, pitch, y, x))
  {
    var r := DecodeMonochrome(buf, w, h, pitch).value;
    forall y, x | 0 <= y < h && 0 <= x < w
      ensures TightIndex(w, 4, y, x, 3) < w * h * 4
      ensures MaskByteIndex(0, pitch, y, x) < |buf| && MaskByteIndex(h * pitch, pitch, y, x) < |buf|
      ensures PixelAt(r, w, y, x) == MonoColor(MaskBit(buf, 0, pitch, y, x), MaskBit(buf, h * pitch, pitch, y, x))
    {
      TightIndexBound(w, h, 4, y, x, 3);
      MaskIndexBound(|buf|, 0, pitch, w, h, y, x);
      MaskIndexBound(|buf|, h * pitch, pitch, w, h, y, x);
      TightIndexInverse(w, 4, y, x, 0);
      TightIndexInverse(w, 4, y, x, 1);
      TightIndexInverse(w, 4, y, x, 2);
      TightIndexInverse(w, 4, y, x, 3);
    }
  }

  // ---------------------------------------------------------------------------
  // Colour pointers

  /** The BGRA sprite of a colour pointer: row y is the first `4 * w` bytes of the
      buffer's row y, rows being `pitch` bytes apart. */
  function DecodeColor(buf: seq<byte>, w: nat, h: nat, pitch: nat): (r: Option<seq<byte>>)
    ensures r.Some? <==> RowsInside(|buf|, pitch, w * 4, h)
    ensures r.Some? ==> |r.value| == w * h * 4
  {
    if !RowsInside(|buf|, pitch, w * 4, h) then None
    else
      RowsOfPixels(w, h, 4);
      Some(TightRepack(buf, pitch, w * 4, h))
  }

  /** Pixel (y, x) of a decoded colour pointer is the four bytes at `y * pitch + 4 * x`. */
  lemma DecodeColorPixels(buf: seq<byte>, w: nat, h: nat, pitch: nat)
    requires RowsInside(|buf|, pitch, w * 4, h)
    ensures forall y, x :: 0 <= y < h && 0 <= x < w ==>
      TightIndex(w, 4, y, x, 3) < w * h * 4 && StridedIndex(pitch, 4, y, x, 3) < |buf| &&
      PixelAt(DecodeColor(buf, w, h, pitch).value, w, y, x) ==
        Px(buf[StridedIndex(pitch, 4, y, x, 0)], buf[StridedIndex(pitch, 4, y, x, 1)],
           buf[StridedIndex(pitch, 4, y, x, 2)], buf[StridedIndex(pitch, 4, y, x, 3)])
  {
    RowsOfPixels(w, h, 4);
    var r := DecodeColor(buf, w, h, pitch).value;
    TightRepackRows(buf, pitch, w * 4, h);
    forall y, x | 0 <= y < h && 0 <= x < w
      ensures TightIndex(w, 4, y, x, 3) < w * h * 4 && StridedIndex(pitch, 4, y, x, 3) < |buf|
      ensures PixelAt(r, w, y, x) ==
        Px(buf[StridedIndex(pitch, 4, y, x, 0)], buf[StridedIndex(pitch, 4, y, x, 1)],
           buf[StridedIndex(pitch, 4, y, x, 2)], buf[StridedIndex(pitch, 4, y, x, 3)])
    {
      TightIndexBound(w, h, 4, y, x, 3);
      TightIsRow(w, 4, y, x, 0);
      TightIsRow(w, 4, y, x, 1);
      TightIsRow(w, 4, y, x, 2);
      TightIsRow(w, 4, y, x, 3);
    }
  }

  // ---------------------------------------------------------------------------
  // Masked colour pointers

  /** The colour bytes of all w*h pixels (read at `4 * pixelIndex`) and the mask that
      follows the first `h * pitch` bytes lie inside the buffer. */
  predicate MaskedColorInside(len: nat, w: nat, h: nat, pitch: nat)
  {
    w * h * 4 <= len && MaskInside(len, h * pitch, pitch, w, h)
  }

  /** Byte k of the sprite of a masked colour pointer. */
  function MaskedByte(buf: seq<byte>, w: nat, h: nat, pitch: nat, k: nat): byte
    requires MaskedColorInside(|buf|, w, h, pitch) && k < w * h * 4
  {
    TightDecompose(k, w, h, 4);
    MaskIndexBound(|buf|, h * pitch, pitch, w, h, RowOf(k, w, 4), ColumnOf(k, w, 4));
    if MaskBit(buf, h * pitch, pitch, RowOf(k, w, 4), ColumnOf(k, w, 4)) then buf[k] else 0
  }

  /** The BGRA sprite of a masked colour pointer: a pixel whose mask bit is set takes
      its four colour bytes, every other pixel is transparent black. */
  function DecodeMaskedColor(buf: seq<byte>, w: nat, h: nat, pitch: nat): (r: Option<seq<byte>>)
    ensures r.Some? <==> MaskedColorInside(|buf|, w, h, pitch)
    ensures r.Some? ==> |r.value| == w * h * 4
  {
    if !MaskedColorInside(|buf|, w, h, pitch) then None
    else Some(seq(w * h * 4, k requires 0 <= k < w * h * 4 => MaskedByte(buf, w, h, pitch, k)))
  }

  /** Pixel (y, x) of a decoded masked colour pointer is colour pixel `y * w + x` of the
      buffer when its mask bit is set, and all-zero otherwise. */
  lemma DecodeMaskedColorPixels(buf: seq<byte>, w: nat, h: nat, pitch: nat)
    requires MaskedColorInside(|buf|, w, h, pitch)
    ensures forall y, x :: 0 <= y < h && 0 <= x < w ==>
      TightIndex(w, 4, y, x, 3) < w * h * 4 && TightIndex(w, 4, y, x, 3) < |buf| &&
      MaskByteIndex(h * pitch, pitch, y, x) < |buf| &&
      PixelAt(DecodeMaskedColor(buf, w, h, pitch).value, w, y, x) ==
        if MaskBit(buf, h * pitch, pitch, y, x) then PixelAt(buf, w, y, x) else Px(0, 0, 0, 0)
  {
    var r := DecodeMaskedColor(buf, w, h, pitch).value;
    forall y, x | 0 <= y < h && 0 <= x < w
      ensures TightIndex(w, 4, y, x, 3) < w * h * 4 && TightIndex(w, 4, y, x, 3) < |buf|
      ensures MaskByteIndex(h * pitch, pitch, y, x) < |buf|
      ensures PixelAt(r, w, y, x) ==
        if MaskBit(buf, h * pitch, pitch, y, x) then PixelAt(buf, w, y, x) else Px(0, 0, 0, 0)
    {
      TightIndexBound(w, h, 4, y, x, 3);
      MaskIndexBound(|buf|, h * pitch, pitch, w, h, y, x);
      TightIndexInverse(w, 4, y, x, 0);
      TightIndexInverse(w, 4, y, x, 1);
      TightIndexInverse(w, 4, y, x, 2);
      TightIndexInverse(w, 4, y, x, 3);
    }
  }

  /** When the colour rows are unpadded (`pitch == 4 * w`), a masked colour pointer
      whose mask bits are all set decodes to the same sprite as a colour pointer. */
  lemma {:induction false} MaskedColorAgreesWithColor(buf: seq<byte>, w: nat, h: nat)
    requires MaskedColorInside(|buf|, w, h, w * 4)
    ensures RowsInside(|buf|, w * 4, w * 4, h)
    ensures AllMaskBitsSet(buf, h * (w * 4), w * 4, w, h) ==>
      DecodeMaskedColor(buf, w, h, w * 4) == DecodeColor(buf, w, h, w * 4)
  {
    RowsOfPixels(w, h, 4);
    UnpaddedRowsInside(|buf|, w * 4, h);
    var pitch := w * 4;
    if AllMaskBitsSet(buf, h * pitch, pitch, w, h) {
      var m := DecodeMaskedColor(buf, w, h, pitch).value;
      var c := DecodeColor(buf, w, h, pitch).value;
      forall k | 0 <= k < w * h * 4 ensures m[k] == c[k] {
        MaskedColorAgreesAt(buf, w, h, k);
      }
      assert m == c;
    }
  }

  lemma UnpaddedRowsInside(len: nat, rowBytes: nat, rows: nat)
    requires rowBytes * rows <= len
    ensures RowsInside(len, rowBytes, rowBytes, rows)
  {
    if rows > 0 {
      MulLeft(rows - 1, rows, rowBytes);
      assert (rows - 1) * rowBytes + rowBytes == rows * rowBytes;
    }
  }

  /** With every mask bit set, each sprite byte is the buffer byte at the same offset. */
  lemma MaskedByteAllSet(buf: seq<byte>, w: nat, h: nat, pitch: nat, k: nat)
    requires MaskedColorInside(|buf|, w, h, pitch) && k < w * h * 4
    requires AllMaskBitsSet(buf, h * pitch, pitch, w, h)
    ensures MaskedByte(buf, w, h, pitch, k) == buf[k]
  {
    TightDecompose(k, w, h, 4);
    assert MaskBit(buf, h * pitch, pitch, RowOf(k, w, 4), ColumnOf(k, w, 4));
  }

  lemma MaskedColorAgreesAt(buf: seq<byte>, w: nat, h: nat, k: nat)
    requires MaskedColorInside(|buf|, w, h, w * 4)
    requires AllMaskBitsSet(buf, h * (w * 4), w * 4, w, h)
    requires k < w * h * 4
    ensures RowsInside(|buf|, w * 4, w * 4, h)
    ensures DecodeMaskedColor(buf, w, h, w * 4).value[k] == DecodeColor(buf, w, h, w * 4).value[k]
  {
    RowsOfPixels(w, h, 4);
    UnpaddedRowsInside(|buf|, w * 4, h);
    MaskedByteAllSet(buf, w, h, w * 4, k);
    TightRepackUnpaddedAt(buf, w * 4, h, k);
  }

  /** The sprite of a pointer of the given format. */
  function Decode(t: ShapeType, buf: seq<byte>, w: nat, h: nat, pitch: nat): (r: Option<seq<byte>>)
    ensures r.Some? ==> |r.value| == w * h * 4
  {
    match t
    case Monochrome => DecodeMonochrome(buf, w, h, pitch)
    case Color => DecodeColor(buf, w, h, pitch)
    case MaskedColor => DecodeMaskedColor(buf, w, h, pitch)
  }
}
