/** The host-memory pixel repacking routines of the compositing pipeline: opaque
    RGB-to-RGBA expansion before upload, stride-aware RGBA-to-RGB readback,
    BGRA-to-RGBA channel swizzles, and the row copies between tightly packed
    buffers and frames whose rows are padded to a line size. */
module Pixels {
  import opened Prelude
  import opened Layout

  /** Channel order exchange between BGRA and RGBA: bytes 0 and 2 swap, 1 and 3 stay. */
  function SwapRedBlue(c: nat): (d: nat)
    requires c < 4
    ensures d < 4
  {
    if c == 0 then 2 else if c == 2 then 0 else c
  }

  // ---------------------------------------------------------------------------
  // RGB -> RGBA with opaque alpha (texture upload)

  /** Expands `w*h` packed RGB pixels to RGBA, alpha 255. */
  function ExpandRgbToRgba(rgb: seq<byte>, w: nat, h: nat): (rgba: seq<byte>)
    requires w * h * 3 <= |rgb|
    ensures |rgba| == w * h * 4
  {
    seq(w * h * 4, k requires 0 <= k < w * h * 4 =>
      if k % 4 == 3 then 255 else rgb[3 * (k / 4) + k % 4])
  }

  /** Pixel i of the expansion carries the three colour bytes of RGB pixel i and alpha 255. */
  lemma ExpandRgbToRgbaPixels(rgb: seq<byte>, w: nat, h: nat)
    requires w * h * 3 <= |rgb|
    ensures forall i, c :: 0 <= i < w * h && 0 <= c < 3 ==>
      PixelByte(i, 4, c) < w * h * 4 && PixelByte(i, 3, c) < |rgb| &&
      ExpandRgbToRgba(rgb, w, h)[PixelByte(i, 4, c)] == rgb[PixelByte(i, 3, c)]
    ensures forall i :: 0 <= i < w * h ==>
      PixelByte(i, 4, 3) < w * h * 4 && ExpandRgbToRgba(rgb, w, h)[PixelByte(i, 4, 3)] == 255
  {
    var r := ExpandRgbToRgba(rgb, w, h);
    forall i, c | 0 <= i < w * h && 0 <= c < 4
      ensures PixelByte(i, 4, c) < w * h * 4
      ensures PixelByte(i, 4, c) / 4 == i && PixelByte(i, 4, c) % 4 == c
    {
      DivModUnique(PixelByte(i, 4, c), 4, i, c);
    }
  }

  // ---------------------------------------------------------------------------
  // RGBA -> RGB, alpha dropped

  /** Drops the alpha byte of each of `w*h` packed RGBA pixels. */
  function DropAlpha(rgba: seq<byte>, w: nat, h: nat): (rgb: seq<byte>)
    requires w * h * 4 <= |rgba|
    ensures |rgb| == w * h * 3
  {
    seq(w * h * 3, k requires 0 <= k < w * h * 3 => rgba[4 * (k / 3) + k % 3])
  }

  /** Pixel i of the result carries the colour bytes of RGBA pixel i, in order. */
  lemma DropAlphaPixels(rgba: seq<byte>, w: nat, h: nat)
    requires w * h * 4 <= |rgba|
    ensures forall i, c :: 0 <= i < w * h && 0 <= c < 3 ==>
      PixelByte(i, 3, c) < w * h * 3 && PixelByte(i, 4, c) < |rgba| &&
      DropAlpha(rgba, w, h)[PixelByte(i, 3, c)] == rgba[PixelByte(i, 4, c)]
  {
    forall i, c | 0 <= i < w * h && 0 <= c < 3
      ensures PixelByte(i, 3, c) < w * h * 3
      ensures PixelByte(i, 3, c) / 3 == i && PixelByte(i, 3, c) % 3 == c
    {
      DivModUnique(PixelByte(i, 3, c), 3, i, c);
    }
  }

  /** Dropping the alpha of an opaque expansion gives back the RGB input. */
  lemma {:induction false} DropAlphaOfExpand(rgb: seq<byte>, w: nat, h: nat)
    requires |rgb| == w * h * 3
    ensures DropAlpha(ExpandRgbToRgba(rgb, w, h), w, h) == rgb
  {
    var e := ExpandRgbToRgba(rgb, w, h);
    var r := DropAlpha(e, w, h);
    ExpandRgbToRgbaPixels(rgb, w, h);
    DropAlphaPixels(e, w, h);
    forall k | 0 <= k < |rgb| ensures r[k] == rgb[k] {
      var i, c := k / 3, k % 3;
      assert k == PixelByte(i, 3, c);
      assert i < w * h;
      assert r[PixelByte(i, 3, c)] == e[PixelByte(i, 4, c)];
    }
  }

  /** Expanding the colour bytes of an RGBA buffer restores it exactly when every
      pixel of it is opaque. */
  lemma {:induction false} ExpandOfDropAlpha(rgba: seq<byte>, w: nat, h: nat)
    requires |rgba| == w * h * 4
    ensures ExpandRgbToRgba(DropAlpha(rgba, w, h), w, h) == rgba <==>
      forall i :: 0 <= i < w * h ==> rgba[PixelByte(i, 4, 3)] == 255
  {
    var rgb := DropAlpha(rgba, w, h);
    var e := ExpandRgbToRgba(rgb, w, h);
    DropAlphaPixels(rgba, w, h);
    ExpandRgbToRgbaPixels(rgb, w, h);
    if forall i :: 0 <= i < w * h ==> rgba[PixelByte(i, 4, 3)] == 255 {
      forall k | 0 <= k < |rgba| ensures e[k] == rgba[k] {
        var i, c := k / 4, k % 4;
        assert k == PixelByte(i, 4, c);
        assert i < w * h;
      }
    }
    if e == rgba {
      forall i | 0 <= i < w * h ensures rgba[PixelByte(i, 4, 3)] == 255 {
        assert e[PixelByte(i, 4, 3)] == 255;
      }
    }
  }

  // ---------------------------------------------------------------------------
  // Stride-aware readback of a mapped RGBA staging texture into packed RGB

  /** Reads a mapped RGBA texture whose rows are `pitch` bytes apart into packed RGB. */
  function ReadbackRgb(staging: seq<byte>, pitch: nat, w: nat, h: nat): (rgb: seq<byte>)
    requires CoversStrided(|staging|, pitch, w, h, 4)
    ensures |rgb| == w * h * 3
  {
    seq(w * h * 3, k requires 0 <= k < w * h * 3 =>
      TightDecompose(k, w, h, 3);
      StridedIndexBound(|staging|, pitch, w, h, 4, RowOf(k, w, 3), ColumnOf(k, w, 3), ChannelOf(k, 3));
      staging[StridedIndex(pitch, 4, RowOf(k, w, 3), ColumnOf(k, w, 3), ChannelOf(k, 3))])
  }

  /** Readback addressing: colour byte c of pixel (y, x) comes from `y*pitch + x*4 + c`. */
  lemma ReadbackRgbPixels(staging: seq<byte>, pitch: nat, w: nat, h: nat)
    requires CoversStrided(|staging|, pitch, w, h, 4)
    ensures forall y, x, c :: 0 <= y < h && 0 <= x < w && 0 <= c < 3 ==>
      TightIndex(w, 3, y, x, c) < w * h * 3 && StridedIndex(pitch, 4, y, x, c) < |staging| &&
      ReadbackRgb(staging, pitch, w, h)[TightIndex(w, 3, y, x, c)] == staging[StridedIndex(pitch, 4, y, x, c)]
  {
    forall y, x, c | 0 <= y < h && 0 <= x < w && 0 <= c < 3
      ensures TightIndex(w, 3, y, x, c) < w * h * 3 && StridedIndex(pitch, 4, y, x, c) < |staging|
      ensures ReadbackRgb(staging, pitch, w, h)[TightIndex(w, 3, y, x, c)] == staging[StridedIndex(pitch, 4, y, x, c)]
    {
      TightIndexBound(w, h, 3, y, x, c);
      TightIndexInverse(w, 3, y, x, c);
      StridedIndexBound(|staging|, pitch, w, h, 4, y, x, c);
    }
  }

  /** Two staging buffers that agree on the colour bytes of every pixel read back the
      same: alpha bytes and row padding play no part. */
  lemma ReadbackIgnoresAlphaAndPadding(s1: seq<byte>, s2: seq<byte>, pitch: nat, w: nat, h: nat)
    requires CoversStrided(|s1|, pitch, w, h, 4) && CoversStrided(|s2|, pitch, w, h, 4)
    requires forall y, x, c :: 0 <= y < h && 0 <= x < w && 0 <= c < 3 ==>
      StridedIndex(pitch, 4, y, x, c) < |s1| && StridedIndex(pitch, 4, y, x, c) < |s2| &&
      s1[StridedIndex(pitch, 4, y, x, c)] == s2[StridedIndex(pitch, 4, y, x, c)]
    ensures ReadbackRgb(s1, pitch, w, h) == ReadbackRgb(s2, pitch, w, h)
  {
    var r1, r2 := ReadbackRgb(s1, pitch, w, h), ReadbackRgb(s2, pitch, w, h);
    forall k | 0 <= k < w * h * 3 ensures r1[k] == r2[k] {
      TightDecompose(k, w, h, 3);
    }
  }

  // ---------------------------------------------------------------------------
  // BGRA <-> RGBA

  /** Reads a mapped BGRA texture whose rows are `pitch` bytes apart into tightly
      packed RGBA, keeping alpha. */
  function SwizzleBgraToRgba(src: seq<byte>, pitch: nat, w: nat, h: nat): (rgba: seq<byte>)
    requires CoversStrided(|src|, pitch, w, h, 4)
    ensures |rgba| == w * h * 4
  {
    seq(w * h * 4, k requires 0 <= k < w * h * 4 =>
      TightDecompose(k, w, h, 4);
      StridedIndexBound(|src|, pitch, w, h, 4, RowOf(k, w, 4), ColumnOf(k, w, 4), SwapRedBlue(ChannelOf(k, 4)));
      src[StridedIndex(pitch, 4, RowOf(k, w, 4), ColumnOf(k, w, 4), SwapRedBlue(ChannelOf(k, 4)))])
  }

  /** Swizzle addressing: destination bytes 0..3 of pixel (y, x) come from source bytes
      2, 1, 0, 3 at `y*pitch + x*4`. */
  lemma SwizzleBgraToRgbaPixels(src: seq<byte>, pitch: nat, w: nat, h: nat)
    requires CoversStrided(|src|, pitch, w, h, 4)
    ensures forall y, x :: 0 <= y < h && 0 <= x < w ==>
      TightIndex(w, 4, y, x, 3) < w * h * 4 && StridedIndex(pitch, 4, y, x, 3) < |src| &&
      PixelAt(SwizzleBgraToRgba(src, pitch, w, h), w, y, x) ==
        Px(src[StridedIndex(pitch, 4, y, x, 2)], src[StridedIndex(pitch, 4, y, x, 1)],
           src[StridedIndex(pitch, 4, y, x, 0)], src[StridedIndex(pitch, 4, y, x, 3)])
  {
    var r := SwizzleBgraToRgba(src, pitch, w, h);
    forall y, x | 0 <= y < h && 0 <= x < w
      ensures TightIndex(w, 4, y, x, 3) < w * h * 4 && StridedIndex(pitch, 4, y, x, 3) < |src|
      ensures PixelAt(r, w, y, x) ==
        Px(src[StridedIndex(pitch, 4, y, x, 2)], src[StridedIndex(pitch, 4, y, x, 1)],
           src[StridedIndex(pitch, 4, y, x, 0)], src[StridedIndex(pitch, 4, y, x, 3)])
    {
      TightIndexBound(w, h, 4, y, x, 3);
      StridedIndexBound(|src|, pitch, w, h, 4, y, x, 3);
      TightIndexInverse(w, 4, y, x, 0);
      TightIndexInverse(w, 4, y, x, 1);
      TightIndexInverse(w, 4, y, x, 2);
      TightIndexInverse(w, 4, y, x, 3);
    }
  }

  /** Reordering the desktop's BGRA to RGBA and then dropping alpha reads each
      RGB byte c of pixel (y, x) from BGRA byte 2 - c: the two steps together
      reverse the colour order and skip alpha and row padding. */
  lemma DropAlphaOfSwizzleAt(src: seq<byte>, pitch: nat, w: nat, h: nat, y: nat, x: nat, c: nat)
    requires CoversStrided(|src|, pitch, w, h, 4)
    requires y < h && x < w && c < 3
    ensures TightIndex(w, 3, y, x, c) < w * h * 3 && StridedIndex(pitch, 4, y, x, 2 - c) < |src|
    ensures DropAlpha(SwizzleBgraToRgba(src, pitch, w, h), w, h)[TightIndex(w, 3, y, x, c)] ==
      src[StridedIndex(pitch, 4, y, x, 2 - c)]
  {
    var rgba := SwizzleBgraToRgba(src, pitch, w, h);
    TightIndexBound(w, h, 1, y, x, 0);
    DropAlphaPixels(rgba, w, h);
    assert DropAlpha(rgba, w, h)[TightIndex(w, 3, y, x, c)] == rgba[TightIndex(w, 4, y, x, c)];
    SwizzleBgraToRgbaPixels(src, pitch, w, h);
    assert rgba[TightIndex(w, 4, y, x, c)] == Channel(PixelAt(rgba, w, y, x), c);
  }

  /** Swaps bytes 0 and 2 of each of `w*h` tightly packed four-byte pixels
      (BGRA to RGBA, or back). */
  function SwapRedBlueBytes(buf: seq<byte>, w: nat, h: nat): (out: seq<byte>)
    requires w * h * 4 <= |buf|
    ensures |out| == w * h * 4
  {
    seq(w * h * 4, k requires 0 <= k < w * h * 4 => buf[4 * (k / 4) + SwapRedBlue(k % 4)])
  }

  /** Per pixel: output bytes (0, 1, 2, 3) are input bytes (2, 1, 0, 3). */
  lemma SwapRedBlueBytesPixels(buf: seq<byte>, w: nat, h: nat)
    requires w * h * 4 <= |buf|
    ensures forall i :: 0 <= i < w * h ==>
      PixelByte(i, 4, 3) < w * h * 4 &&
      var out := SwapRedBlueBytes(buf, w, h);
      out[PixelByte(i, 4, 0)] == buf[PixelByte(i, 4, 2)] &&
      out[PixelByte(i, 4, 1)] == buf[PixelByte(i, 4, 1)] &&
      out[PixelByte(i, 4, 2)] == buf[PixelByte(i, 4, 0)] &&
      out[PixelByte(i, 4, 3)] == buf[PixelByte(i, 4, 3)]
  {
    forall i, c | 0 <= i < w * h && 0 <= c < 4
      ensures PixelByte(i, 4, c) < w * h * 4
      ensures PixelByte(i, 4, c) / 4 == i && PixelByte(i, 4, c) % 4 == c
    {
      DivModUnique(PixelByte(i, 4, c), 4, i, c);
    }
  }

  /** Swapping red and blue twice is the identity. */
  lemma {:induction false} SwapRedBlueBytesInvolution(buf: seq<byte>, w: nat, h: nat)
    requires |buf| == w * h * 4
    ensures SwapRedBlueBytes(SwapRedBlueBytes(buf, w, h), w, h) == buf
  {
    var once := SwapRedBlueBytes(buf, w, h);
    var twice := SwapRedBlueBytes(once, w, h);
    forall k | 0 <= k < |buf| ensures twice[k] == buf[k] {
      var i, c := k / 4, k % 4;
      var j := 4 * i + SwapRedBlue(c);
      DivModUnique(j, 4, i, SwapRedBlue(c));
    }
  }

  // ---------------------------------------------------------------------------
  // Row copies between tight buffers and padded frames

  /** Copies `rows` rows of `rowBytes` bytes out of a buffer whose rows are `pitch`
      bytes apart into a tightly packed buffer (one `memcpy` per row). */
  function TightRepack(src: seq<byte>, pitch: nat, rowBytes: nat, rows: nat): (tight: seq<byte>)
    requires RowsInside(|src|, pitch, rowBytes, rows)
    ensures |tight| == rowBytes * rows
  {
    seq(rowBytes * rows, k requires 0 <= k < rowBytes * rows =>
      RowDecompose(k, rowBytes, rows);
      RowByteBound(|src|, pitch, rowBytes, rows, k / rowBytes, k % rowBytes);
      src[RowByte(pitch, k / rowBytes, k % rowBytes)])
  }

  /** Byte i of tight row y is byte i of padded row y. */
  lemma TightRepackRows(src: seq<byte>, pitch: nat, rowBytes: nat, rows: nat)
    requires RowsInside(|src|, pitch, rowBytes, rows)
    ensures forall y, i :: 0 <= y < rows && 0 <= i < rowBytes ==>
      RowByte(rowBytes, y, i) < rowBytes * rows && RowByte(pitch, y, i) < |src| &&
      TightRepack(src, pitch, rowBytes, rows)[RowByte(rowBytes, y, i)] == src[RowByte(pitch, y, i)]
  {
    forall y, i | 0 <= y < rows && 0 <= i < rowBytes
      ensures RowByte(rowBytes, y, i) < rowBytes * rows && RowByte(pitch, y, i) < |src|
      ensures RowByte(rowBytes, y, i) / rowBytes == y && RowByte(rowBytes, y, i) % rowBytes == i
    {
      DivModUnique(RowByte(rowBytes, y, i), rowBytes, y, i);
      MulLeft(y + 1, rows, rowBytes);
      RowByteBound(|src|, pitch, rowBytes, rows, y, i);
    }
  }

  /** Copies `rows` tight rows of `rowBytes` bytes into a frame buffer `dst` whose rows
      are `pitch` bytes apart (one `memcpy` per row); padding bytes keep their content. */
  function PackRows(tight: seq<byte>, rowBytes: nat, rows: nat, pitch: nat, dst: seq<byte>): (frame: seq<byte>)
    requires rowBytes * rows <= |tight|
    requires CoversStrided(|dst|, pitch, rowBytes, rows, 1)
    ensures |frame| == |dst|
  {
    seq(|dst|, j requires 0 <= j < |dst| =>
      if pitch > 0 && j / pitch < rows && j % pitch < rowBytes then
        RowDecomposeBound(j / pitch, j % pitch, rowBytes, rows);
        tight[RowByte(rowBytes, j / pitch, j % pitch)]
      else dst[j])
  }

  lemma RowDecomposeBound(y: nat, i: nat, rowBytes: nat, rows: nat)
    requires y < rows && i < rowBytes
    ensures RowByte(rowBytes, y, i) < rowBytes * rows
  {
    MulLeft(y + 1, rows, rowBytes);
  }

  /** Row y of the frame holds tight row y in its first `rowBytes` bytes, and every
      byte outside those row prefixes is left as it was. */
  lemma PackRowsContents(tight: seq<byte>, rowBytes: nat, rows: nat, pitch: nat, dst: seq<byte>)
    requires rowBytes * rows <= |tight|
    requires CoversStrided(|dst|, pitch, rowBytes, rows, 1)
    ensures forall y, i :: 0 <= y < rows && 0 <= i < rowBytes ==>
      RowByte(pitch, y, i) < |dst| && RowByte(rowBytes, y, i) < |tight| &&
      PackRows(tight, rowBytes, rows, pitch, dst)[RowByte(pitch, y, i)] == tight[RowByte(rowBytes, y, i)]
    ensures forall j :: 0 <= j < |dst| && (pitch == 0 || j / pitch >= rows || j % pitch >= rowBytes) ==>
      PackRows(tight, rowBytes, rows, pitch, dst)[j] == dst[j]
  {
    forall y, i | 0 <= y < rows && 0 <= i < rowBytes
      ensures RowByte(pitch, y, i) < |dst| && RowByte(rowBytes, y, i) < |tight|
      ensures PackRows(tight, rowBytes, rows, pitch, dst)[RowByte(pitch, y, i)] == tight[RowByte(rowBytes, y, i)]
    {
      RowByteBound(|dst|, pitch, rowBytes, rows, y, i);
      RowDecomposeBound(y, i, rowBytes, rows);
      DivModUnique(RowByte(pitch, y, i), pitch, y, i);
    }
  }

  /** Repacking rows that were packed into a padded frame gives back the tight rows. */
  lemma {:induction false} TightRepackOfPackRows(tight: seq<byte>, rowBytes: nat, rows: nat, pitch: nat, dst: seq<byte>)
    requires |tight| == rowBytes * rows
    requires CoversStrided(|dst|, pitch, rowBytes, rows, 1)
    ensures TightRepack(PackRows(tight, rowBytes, rows, pitch, dst), pitch, rowBytes, rows) == tight
  {
    var back := TightRepack(PackRows(tight, rowBytes, rows, pitch, dst), pitch, rowBytes, rows);
    forall k | 0 <= k < |tight| ensures back[k] == tight[k] {
      TightRepackOfPackRowsAt(tight, rowBytes, rows, pitch, dst, k);
    }
  }

  lemma TightRepackOfPackRowsAt(tight: seq<byte>, rowBytes: nat, rows: nat, pitch: nat, dst: seq<byte>, k: nat)
    requires |tight| == rowBytes * rows && k < |tight|
    requires CoversStrided(|dst|, pitch, rowBytes, rows, 1)
    ensures TightRepack(PackRows(tight, rowBytes, rows, pitch, dst), pitch, rowBytes, rows)[k] == tight[k]
  {
    var frame := PackRows(tight, rowBytes, rows, pitch, dst);
    RowDecompose(k, rowBytes, rows);
    var y, i := k / rowBytes, k % rowBytes;
    var j := RowByte(pitch, y, i);
    RowByteBound(|dst|, pitch, rowBytes, rows, y, i);
    DivModUnique(j, pitch, y, i);
    assert TightRepack(frame, pitch, rowBytes, rows)[k] == frame[j];
  }

  /** A single `memcpy` of the first `n` bytes of `src` over the start of `dst`. */
  function ContiguousCopy(src: seq<byte>, n: nat, dst: seq<byte>): (frame: seq<byte>)
    requires n <= |src| && n <= |dst|
    ensures |frame| == |dst|
    ensures frame[..n] == src[..n] && frame[n..] == dst[n..]
  {
    src[..n] + dst[n..]
  }

  /** Copying one contiguous block equals the row-by-row copy when rows carry no
      padding: a frame whose line size is exactly the row size reads back unchanged. */
  lemma {:induction false} ContiguousCopyUnpadded(src: seq<byte>, rowBytes: nat, rows: nat, dst: seq<byte>)
    requires |src| == rowBytes * rows && rowBytes * rows <= |dst|
    ensures CoversStrided(|dst|, rowBytes, rowBytes, rows, 1)
    ensures TightRepack(ContiguousCopy(src, rowBytes * rows, dst), rowBytes, rowBytes, rows) == src
  {
    if rows > 0 {
      MulLeft(rows - 1, rows, rowBytes);
      assert (rows - 1) * rowBytes + rowBytes == rowBytes * rows;
    }
    var frame := ContiguousCopy(src, rowBytes * rows, dst);
    var back := TightRepack(frame, rowBytes, rowBytes, rows);
    forall k | 0 <= k < |src| ensures back[k] == src[k] {
      TightRepackUnpaddedAt(frame, rowBytes, rows, k);
    }
  }

  /** Repacking rows that are already `pitch` bytes long leaves each byte in place. */
  lemma TightRepackUnpaddedAt(buf: seq<byte>, rowBytes: nat, rows: nat, k: nat)
    requires RowsInside(|buf|, rowBytes, rowBytes, rows) && k < rowBytes * rows
    ensures TightRepack(buf, rowBytes, rowBytes, rows)[k] == buf[k]
  {
    RowDecompose(k, rowBytes, rows);
  }

  /** When the frame's line size exceeds the row size and there are two rows or more,
      the contiguous copy shears the image: the first byte of the second row is read
      back from the padding position instead. The witness is a buffer that is zero
      except for that byte, copied over a zero frame. */
  lemma ContiguousCopyShearsPaddedRows(rowBytes: nat, rows: nat, pitch: nat)
    requires rowBytes >= 1 && rows >= 2 && pitch > rowBytes
    ensures var src := seq(rowBytes * rows, k => if k == rowBytes then 1 else 0);
      var dst := Zeros(pitch * rows);
      CoversStrided(|dst|, pitch, rowBytes, rows, 1) && rowBytes * rows <= |dst| &&
      TightRepack(ContiguousCopy(src, rowBytes * rows, dst), pitch, rowBytes, rows) != src
  {
    var src: seq<byte> := seq(rowBytes * rows, k => if k == rowBytes then 1 else 0);
    var dst := Zeros(pitch * rows);
    MulLeft(rows - 1, rows, pitch);
    MulLeft(1, rows - 1, pitch);
    MulLeft(2, rows, rowBytes);
    MulLeft(rowBytes, pitch, rows);
    assert CoversStrided(|dst|, pitch, rowBytes, rows, 1);
    var frame := ContiguousCopy(src, rowBytes * rows, dst);
    TightRepackRows(frame, pitch, rowBytes, rows);
    var back := TightRepack(frame, pitch, rowBytes, rows);
    assert back[RowByte(rowBytes, 1, 0)] == frame[RowByte(pitch, 1, 0)];
    assert frame[pitch] == 0;
    assert src[rowBytes] == 1;
  }

  /** The swizzle of a padded BGRA texture is the red/blue swap of its tightly
      repacked rows: stride handling and channel reordering are independent steps. */
  lemma {:induction false} SwizzleIsSwapOfRepack(src: seq<byte>, pitch: nat, w: nat, h: nat)
    requires CoversStrided(|src|, pitch, w, h, 4)
    ensures CoversStrided(|src|, pitch, w * 4, h, 1)
    ensures (w * 4) * h == w * h * 4
    ensures SwizzleBgraToRgba(src, pitch, w, h) == SwapRedBlueBytes(TightRepack(src, pitch, w * 4, h), w, h)
  {
    RowsOfPixels(w, h, 4);
    var t := TightRepack(src, pitch, w * 4, h);
    var lhs := SwizzleBgraToRgba(src, pitch, w, h);
    var rhs := SwapRedBlueBytes(t, w, h);
    forall k | 0 <= k < w * h * 4 ensures lhs[k] == rhs[k] {
      SwizzleIsSwapOfRepackAt(src, pitch, w, h, k);
    }
  }

  lemma SwizzleIsSwapOfRepackAt(src: seq<byte>, pitch: nat, w: nat, h: nat, k: nat)
    requires CoversStrided(|src|, pitch, w, h, 4)
    requires k < w * h * 4
    ensures CoversStrided(|src|, pitch, w * 4, h, 1) && (w * 4) * h == w * h * 4
    ensures SwizzleBgraToRgba(src, pitch, w, h)[k] ==
      SwapRedBlueBytes(TightRepack(src, pitch, w * 4, h), w, h)[k]
  {
    RowsOfPixels(w, h, 4);
    TightDecompose(k, w, h, 4);
    var y, x, c := RowOf(k, w, 4), ColumnOf(k, w, 4), ChannelOf(k, 4);
    var s := SwapRedBlue(c);
    TightIsRow(w, 4, y, x, s);
    var j := TightIndex(w, 4, y, x, s);
    assert 4 * (k / 4) + s == j;
    var t := TightRepack(src, pitch, w * 4, h);
    TightRepackRows(src, pitch, w * 4, h);
    assert t[RowByte(w * 4, y, x * 4 + s)] == src[RowByte(pitch, y, x * 4 + s)];
  }

  /** Reading back an opaque RGB image that was expanded to RGBA and laid into a
      padded texture gives the RGB image back: upload and readback are inverse. */
  lemma {:induction false} ReadbackOfPaddedExpansion(rgb: seq<byte>, w: nat, h: nat, pitch: nat, dst: seq<byte>)
    requires |rgb| == w * h * 3
    requires CoversStrided(|dst|, pitch, w * 4, h, 1)
    ensures (w * 4) * h == w * h * 4
    ensures CoversStrided(|dst|, pitch, w, h, 4)
    ensures ReadbackRgb(PackRows(ExpandRgbToRgba(rgb, w, h), w * 4, h, pitch, dst), pitch, w, h) == rgb
  {
    RowsOfPixels(w, h, 4);
    var frame := PackRows(ExpandRgbToRgba(rgb, w, h), w * 4, h, pitch, dst);
    var back := ReadbackRgb(frame, pitch, w, h);
    forall k | 0 <= k < |rgb| ensures back[k] == rgb[k] {
      ReadbackOfPaddedExpansionAt(rgb, w, h, pitch, dst, k);
    }
  }

  lemma ReadbackOfPaddedExpansionAt(rgb: seq<byte>, w: nat, h: nat, pitch: nat, dst: seq<byte>, k: nat)
    requires |rgb| == w * h * 3 && k < |rgb|
    requires CoversStrided(|dst|, pitch, w * 4, h, 1)
    ensures (w * 4) * h == w * h * 4 && CoversStrided(|dst|, pitch, w, h, 4)
    ensures ReadbackRgb(PackRows(ExpandRgbToRgba(rgb, w, h), w * 4, h, pitch, dst), pitch, w, h)[k] == rgb[k]
  {
    RowsOfPixels(w, h, 4);
    var e := ExpandRgbToRgba(rgb, w, h);
    var frame := PackRows(e, w * 4, h, pitch, dst);
    TightDecompose(k, w, h, 3);
    var y, x, c := RowOf(k, w, 3), ColumnOf(k, w, 3), ChannelOf(k, 3);
    TightIsRow(w, 4, y, x, c);
    PackedRowByte(e, w * 4, h, pitch, dst, y, x * 4 + c);
    TightIndexInverse(w, 4, y, x, c);
    TightIndexBound(w, h, 4, y, x, c);
    assert e[TightIndex(w, 4, y, x, c)] == rgb[3 * (y * w + x) + c];
  }

  /** A byte inside row `y` of a packed frame is the corresponding byte of the tight rows. */
  lemma PackedRowByte(tight: seq<byte>, rowBytes: nat, rows: nat, pitch: nat, dst: seq<byte>, y: nat, i: nat)
    requires rowBytes * rows <= |tight|
    requires CoversStrided(|dst|, pitch, rowBytes, rows, 1)
    requires y < rows && i < rowBytes
    ensures RowByte(pitch, y, i) < |dst| && RowByte(rowBytes, y, i) < |tight|
    ensures PackRows(tight, rowBytes, rows, pitch, dst)[RowByte(pitch, y, i)] == tight[RowByte(rowBytes, y, i)]
  {
    RowByteBound(|dst|, pitch, rowBytes, rows, y, i);
    RowDecomposeBound(y, i, rowBytes, rows);
    DivModUnique(RowByte(pitch, y, i), pitch, y, i);
  }
}
