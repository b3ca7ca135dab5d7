/** Addressing of host-memory frame buffers. A buffer is either tightly packed
    (pixel (y, x) of a width-w image starts at byte (y*w + x)*bpp) or row-padded
    (row y starts at byte y*pitch, where pitch >= w*bpp is the hardware row stride).
    The lemmas here are the index arithmetic every repacking routine relies on. */
module Layout {
  import opened Prelude

  /** Byte offset of channel `c` of pixel (y, x) in a tightly packed image. */
  function TightIndex(w: nat, bpp: nat, y: nat, x: nat, c: nat): nat
  {
    (y * w + x) * bpp + c
  }

  /** Byte offset of channel `c` of pixel (y, x) in an image whose rows are `pitch` bytes apart. */
  function StridedIndex(pitch: nat, bpp: nat, y: nat, x: nat, c: nat): nat
  {
    y * pitch + x * bpp + c
  }

  /** Byte offset of channel `c` of the `i`-th pixel of a tightly packed buffer. */
  function PixelByte(i: nat, bpp: nat, c: nat): nat
  {
    i * bpp + c
  }

  /** Byte offset of the `i`-th byte of row `y` in a buffer whose rows are `pitch` bytes apart. */
  function RowByte(pitch: nat, y: nat, i: nat): nat
  {
    y * pitch + i
  }

  /** Reading `rows` rows of `rowBytes` bytes, `pitch` bytes apart, stays inside a
      buffer of `len` bytes: the last row ends at or before the end. */
  predicate RowsInside(len: nat, pitch: nat, rowBytes: nat, rows: nat)
  {
    rows == 0 || (rows - 1) * pitch + rowBytes <= len
  }

  /** A row-padded buffer of `len` bytes holds every pixel of a w-by-h image of
      `bpp` bytes per pixel: rows fit in the stride and the last row is complete. */
  predicate CoversStrided(len: nat, pitch: nat, w: nat, h: nat, bpp: nat)
  {
    w * bpp <= pitch && RowsInside(len, pitch, w * bpp, h)
  }

  /** Four bytes of one pixel, in buffer order. */
  datatype Px = Px(c0: byte, c1: byte, c2: byte, c3: byte)

  /** Byte `c` of a pixel, in buffer order. */
  function Channel(p: Px, c: nat): byte
    requires c < 4
  {
    if c == 0 then p.c0 else if c == 1 then p.c1 else if c == 2 then p.c2 else p.c3
  }

  /** The pixel (y, x) of a tightly packed four-byte-per-pixel image. */
  function PixelAt(img: seq<byte>, w: nat, y: nat, x: nat): Px
    requires TightIndex(w, 4, y, x, 3) < |img|
  {
    Px(img[TightIndex(w, 4, y, x, 0)], img[TightIndex(w, 4, y, x, 1)],
       img[TightIndex(w, 4, y, x, 2)], img[TightIndex(w, 4, y, x, 3)])
  }

  /** Channel `c` of pixel (y, x) is the byte at its tight offset. */
  lemma PixelAtChannel(img: seq<byte>, w: nat, y: nat, x: nat, c: nat)
    requires TightIndex(w, 4, y, x, 3) < |img| && c < 4
    ensures TightIndex(w, 4, y, x, c) < |img|
    ensures Channel(PixelAt(img, w, y, x), c) == img[TightIndex(w, 4, y, x, c)]
  {
  }

  /** Writes the four bytes of pixel (y, x) of a tightly packed four-byte-per-pixel image. */
  function PutPixel(img: seq<byte>, w: nat, y: nat, x: nat, p: Px): (r: seq<byte>)
    requires TightIndex(w, 4, y, x, 3) < |img|
    ensures |r| == |img|
  {
    var d := TightIndex(w, 4, y, x, 0);
    img[d := p.c0][d + 1 := p.c1][d + 2 := p.c2][d + 3 := p.c3]
  }

  lemma MulLeft(a: nat, b: nat, c: nat)
    requires a <= b
    ensures a * c <= b * c
  {
  }

  /** A buffer that covers an image also covers every image no wider and no taller. */
  lemma CoversSmaller(len: nat, pitch: nat, bigW: nat, bigH: nat, w: nat, h: nat, bpp: nat)
    requires CoversStrided(len, pitch, bigW, bigH, bpp)
    requires w <= bigW && h <= bigH
    ensures CoversStrided(len, pitch, w, h, bpp)
  {
    MulLeft(w, bigW, bpp);
    if h > 0 {
      MulLeft(h - 1, bigH - 1, pitch);
    }
  }

  /** Quotient and remainder are unique. */
  lemma DivModUnique(n: nat, d: nat, q: nat, r: nat)
    requires d > 0 && r < d && n == q * d + r
    ensures n / d == q && n % d == r
  {
    var q', r' := n / d, n % d;
    assert n == q' * d + r';
    if q' < q {
      MulLeft(q' + 1, q, d);
      assert false;
    } else if q < q' {
      MulLeft(q + 1, q', d);
      assert false;
    }
  }

  /** Every pixel of a w-by-h image lies inside its w*h*bpp-byte tight buffer. */
  lemma TightIndexBound(w: nat, h: nat, bpp: nat, y: nat, x: nat, c: nat)
    requires y < h && x < w && c < bpp
    ensures TightIndex(w, bpp, y, x, c) < w * h * bpp
  {
    MulLeft(y + 1, h, w);
    assert y * w + x + 1 <= h * w;
    MulLeft(y * w + x + 1, w * h, bpp);
  }

  /** A tight byte offset determines its pixel index, row, column and channel. */
  lemma TightIndexInverse(w: nat, bpp: nat, y: nat, x: nat, c: nat)
    requires x < w && c < bpp
    ensures TightIndex(w, bpp, y, x, c) / bpp == y * w + x
    ensures TightIndex(w, bpp, y, x, c) % bpp == c
    ensures (y * w + x) / w == y && (y * w + x) % w == x
    ensures RowOf(TightIndex(w, bpp, y, x, c), w, bpp) == y
    ensures ColumnOf(TightIndex(w, bpp, y, x, c), w, bpp) == x
    ensures ChannelOf(TightIndex(w, bpp, y, x, c), bpp) == c
  {
    DivModUnique(TightIndex(w, bpp, y, x, c), bpp, y * w + x, c);
    DivModUnique(y * w + x, w, y, x);
  }

  /** The pixel row, pixel column and channel of byte `k` of a tight buffer `w`
      pixels wide with `bpp` bytes per pixel. */
  function RowOf(k: nat, w: nat, bpp: nat): nat
    requires w > 0 && bpp > 0
  {
    (k / bpp) / w
  }

  function ColumnOf(k: nat, w: nat, bpp: nat): nat
    requires w > 0 && bpp > 0
  {
    (k / bpp) % w
  }

  function ChannelOf(k: nat, bpp: nat): nat
    requires bpp > 0
  {
    k % bpp
  }

  /** Every byte of a tight w-by-h buffer is channel `ChannelOf(k)` of pixel
      (`RowOf(k)`, `ColumnOf(k)`). */
  lemma TightDecompose(k: nat, w: nat, h: nat, bpp: nat)
    requires k < w * h * bpp
    ensures w > 0 && bpp > 0
    ensures RowOf(k, w, bpp) < h && ColumnOf(k, w, bpp) < w && ChannelOf(k, bpp) < bpp
    ensures k == TightIndex(w, bpp, RowOf(k, w, bpp), ColumnOf(k, w, bpp), ChannelOf(k, bpp))
  {
    var p := k / bpp;
    assert k == p * bpp + k % bpp;
    if p >= w * h {
      MulLeft(w * h, p, bpp);
      assert false;
    }
    var y := p / w;
    assert p == y * w + p % w;
    if y >= h {
      MulLeft(h, y, w);
      assert false;
    }
  }

  /** A byte offset in a buffer of `rows` rows of `rowBytes` bytes splits into row and offset. */
  lemma RowDecompose(k: nat, rowBytes: nat, rows: nat)
    requires k < rowBytes * rows
    ensures rowBytes > 0 && k / rowBytes < rows && k % rowBytes < rowBytes
    ensures k == RowByte(rowBytes, k / rowBytes, k % rowBytes)
  {
    if k / rowBytes >= rows {
      MulLeft(rows, k / rowBytes, rowBytes);
      assert false;
    }
  }

  /** Row `y`, byte `i` of a padded buffer lies inside it when the buffer covers the rows. */
  lemma RowByteBound(len: nat, pitch: nat, rowBytes: nat, rows: nat, y: nat, i: nat)
    requires RowsInside(len, pitch, rowBytes, rows)
    requires y < rows && i < rowBytes
    ensures RowByte(pitch, y, i) < len
  {
    MulLeft(y, rows - 1, pitch);
  }

  /** Every pixel of a w-by-h image lies inside a row-padded buffer that covers it. */
  lemma StridedIndexBound(len: nat, pitch: nat, w: nat, h: nat, bpp: nat, y: nat, x: nat, c: nat)
    requires CoversStrided(len, pitch, w, h, bpp)
    requires y < h && x < w && c < bpp
    ensures StridedIndex(pitch, bpp, y, x, c) < len
  {
    MulLeft(y, h - 1, pitch);
    MulLeft(x + 1, w, bpp);
  }

  /** A tight pixel offset is also a row offset: row y of a tight buffer is `w*bpp` bytes long. */
  lemma TightIsRow(w: nat, bpp: nat, y: nat, x: nat, c: nat)
    requires x < w && c < bpp
    ensures x * bpp + c < w * bpp
    ensures TightIndex(w, bpp, y, x, c) == RowByte(w * bpp, y, x * bpp + c)
    ensures TightIndex(w, bpp, y, x, c) / (w * bpp) == y && TightIndex(w, bpp, y, x, c) % (w * bpp) == x * bpp + c
  {
    MulLeft(x + 1, w, bpp);
    assert (y * w + x) * bpp == y * (w * bpp) + x * bpp;
    DivModUnique(TightIndex(w, bpp, y, x, c), w * bpp, y, x * bpp + c);
  }

  /** Row-major byte count of a w-by-h image: `w*bpp` bytes per row, h rows. */
  lemma RowsOfPixels(w: nat, h: nat, bpp: nat)
    ensures (w * bpp) * h == w * h * bpp
    ensures forall len, pitch :: CoversStrided(len, pitch, w, h, bpp) <==> CoversStrided(len, pitch, w * bpp, h, 1)
  {
  }

  /** Writing a pixel changes its own four bytes and no other byte of the image. */
  lemma PutPixelAt(img: seq<byte>, w: nat, y: nat, x: nat, p: Px, y': nat, x': nat, c: nat)
    requires x < w && x' < w && c < 4
    requires TightIndex(w, 4, y, x, 3) < |img| && TightIndex(w, 4, y', x', c) < |img|
    ensures PutPixel(img, w, y, x, p)[TightIndex(w, 4, y', x', c)] ==
      if y' == y && x' == x then Channel(p, c) else img[TightIndex(w, 4, y', x', c)]
  {
    TightIndexInverse(w, 4, y, x, 0);
    TightIndexInverse(w, 4, y', x', c);
    var d, k := TightIndex(w, 4, y, x, 0), TightIndex(w, 4, y', x', c);
    if d <= k < d + 4 {
      DivModUnique(k, 4, y * w + x, k - d);
    }
  }

  /** Every byte of a tight w-by-h buffer belongs to exactly one pixel and channel:
      returns them. */
  lemma TightSplit(k: nat, w: nat, h: nat, bpp: nat) returns (y: nat, x: nat, c: nat)
    requires k < w * h * bpp
    ensures y < h && x < w && c < bpp && k == TightIndex(w, bpp, y, x, c)
  {
    TightDecompose(k, w, h, bpp);
    y, x, c := RowOf(k, w, bpp), ColumnOf(k, w, bpp), ChannelOf(k, bpp);
  }
}
