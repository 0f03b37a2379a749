/** The image side of `nv_video.c`: the layouts `NVQueryImageAttributes`
    hands to clients, the pitch, buffer and rectangle arithmetic of
    `NVPutImage`, the CPU copies that repack an image into the overlay's
    packed 4:2:2 buffer, and `NVAllocSurface`. */
module VideoImage {
  import opened CArith
  import opened Hw
  import opened MemCopy
  import opened Video

  /** The image formats the ports advertise; any other id is `OtherId`. */
  datatype FourCC = YV12 | I420 | UYVY | YUY2 | Rgb | OtherId(id: int)

  /** Three planes: luma at full resolution, then two chroma planes at
      half width and half height (YV12 stores V before U, I420 U before
      V). */
  predicate Planar(id: FourCC) { id.YV12? || id.I420? }

  /** Bytes per pixel of a packed image (4:2:2 or RGB), and of the packed
      4:2:2 copy a planar image becomes. */
  function PixelBytes(id: FourCC): nat
  {
    if id.Rgb? then 4 else 2
  }

  // ---------------------------------------------------------------------
  // The layout a client is told to use

  /** What `NVQueryImageAttributes` answers: the size it settled on, the
      pitch and offset of each plane, and the total size in bytes. */
  datatype ImageAttrs = ImageAttrs(w: nat, h: nat, pitches: seq<nat>, offsets: seq<nat>, size: nat)

  /** The bytes of `rows` rows at `pitch`. */
  function Area(pitch: nat, rows: nat): nat
  {
    pitch * rows
  }

  /** `(min(x, 2046) + 1) & ~1`: a side clamped to the maximum and rounded
      up to even. */
  function EvenSide(x: nat): (r: nat)
    ensures r % 2 == 0 && r <= MaxImageSide
    ensures Min(x, MaxImageSide) <= r <= Min(x, MaxImageSide) + 1
  {
    AlignUp(Min(x, MaxImageSide), 2)
  }

  /** `NVQueryImageAttributes`: both sides are clamped to 2046 and the
      width rounded up to even; a planar image also gets an even height,
      a luma pitch and a chroma pitch that are multiples of 4, and its
      planes one after another. An unknown format is answered with size 0
      and no planes. */
  function QueryImageAttributes(id: FourCC, w: nat, h: nat): (r: ImageAttrs)
    ensures r.w <= MaxImageSide && r.h <= MaxImageSide && r.w % 2 == 0
    ensures |r.offsets| >= 1 && r.offsets[0] == 0
    ensures id.OtherId? ==> r.w == 0 && r.h == 0 && r.size == 0 && r.pitches == [] && |r.offsets| == 1
    ensures !id.OtherId? ==>
              Min(w, MaxImageSide) <= r.w <= Min(w, MaxImageSide) + 1 &&
              Min(h, MaxImageSide) <= r.h <= Min(h, MaxImageSide) + 1
    ensures Planar(id) ==>
              r.h % 2 == 0 && |r.pitches| == 3 && |r.offsets| == 3 &&
              r.pitches[0] % 4 == 0 && r.pitches[1] % 4 == 0 && r.pitches[2] == r.pitches[1] &&
              r.w <= r.pitches[0] && r.w / 2 <= r.pitches[1] &&
              r.offsets[0] <= r.offsets[1] <= r.offsets[2] <= r.size
    ensures !Planar(id) && !id.OtherId? ==>
              r.h == Min(h, MaxImageSide) && |r.pitches| == 1 && |r.offsets| == 1 &&
              r.pitches[0] == PixelBytes(id) * r.w && r.size == Area(r.pitches[0], r.h)
  {
    var w1 := EvenSide(w);
    if Planar(id) then
      var h1 := EvenSide(h);
      var p0 := AlignUp(w1, 4);
      var p1 := AlignUp(w1 / 2, 4);
      var o1 := Area(p0, h1);
      var o2 := o1 + Area(p1, h1 / 2);
      ImageAttrs(w1, h1, [p0, p1, p1], [0, o1, o2], o2 + Area(p1, h1 / 2))
    else if id.OtherId? then
      ImageAttrs(0, 0, [], [0], 0)
    else
      var h0 := Min(h, MaxImageSide);
      var p := PixelBytes(id) * w1;
      ImageAttrs(w1, h0, [p], [0], Area(p, h0))
  }

  /** Asking again with the size the driver settled on gives the same
      answer: an image created from the reply is already in shape. */
  lemma QueryIdempotent(id: FourCC, w: nat, h: nat)
    ensures var r := QueryImageAttributes(id, w, h);
      QueryImageAttributes(id, r.w, r.h) == r
  {
    var r := QueryImageAttributes(id, w, h);
    if !id.OtherId? {
      EvenSideFixed(r.w);
      if Planar(id) {
        EvenSideFixed(r.h);
      }
    }
  }

  /** An even side within the maximum is left as it is. */
  lemma EvenSideFixed(x: nat)
    requires x % 2 == 0 && x <= MaxImageSide
    ensures EvenSide(x) == x
  {
    AlignUpOfMultiple(x, 2);
  }

  /** Every row of every plane lies before the next plane begins, and the
      last plane ends within the size: the planes never overlap. */
  lemma QueryPlanesInside(id: FourCC, w: nat, h: nat)
    requires !id.OtherId?
    ensures var r := QueryImageAttributes(id, w, h);
      if Planar(id) then
        Fits(r.offsets[1], 0, r.pitches[0], r.w, r.h) &&
        Fits(r.offsets[2], r.offsets[1], r.pitches[1], r.w / 2, r.h / 2) &&
        Fits(r.size, r.offsets[2], r.pitches[2], r.w / 2, r.h / 2)
      else
        Fits(r.size, 0, r.pitches[0], PixelBytes(id) * r.w, r.h)
  {
    var r := QueryImageAttributes(id, w, h);
    if Planar(id) {
      if r.h > 0 {
        LastRowInside(0, r.pitches[0], r.w, r.h);
      }
      if r.h / 2 > 0 {
        LastRowInside(r.offsets[1], r.pitches[1], r.w / 2, r.h / 2);
        LastRowInside(r.offsets[2], r.pitches[2], r.w / 2, r.h / 2);
      }
    } else if r.h > 0 {
      LastRowInside(0, r.pitches[0], PixelBytes(id) * r.w, r.h);
    }
  }

  /** The last of `h` rows of `len` cells at `pitch >= len` ends within
      `h` pitches. */
  lemma LastRowInside(base: nat, pitch: nat, len: nat, h: nat)
    requires h >= 1 && len <= pitch
    ensures base + (h - 1) * pitch + len <= base + pitch * h
  {
  }

  // ---------------------------------------------------------------------
  // Where NVPutImage reads and writes

  /** How `NVPutImage` reads a source image: the luma (or only) plane's
      pitch, the start and pitch of the chroma planes, and the pitch of
      the packed copy in video memory. */
  datatype Layout = Layout(srcPitch: nat, s2offset: nat, srcPitch2: nat, s3offset: nat, dstPitch: nat)

  /** The layout as `NVPutImage` computes it, from the width and height of
      the request as given; `None` for an unknown format. */
  function SourceLayoutAsWritten(id: FourCC, width: nat, height: nat): (r: Option<Layout>)
    ensures r.None? <==> id.OtherId?
    ensures r.Some? ==> r.value.dstPitch % 64 == 0 &&
                        PixelBytes(id) * width <= r.value.dstPitch < PixelBytes(id) * width + 64
  {
    if Planar(id) then
      var p := AlignUp(width, 4);
      var p2 := AlignUp(width / 2, 4);
      Some(Layout(p, Area(p, height), p2, Area(p2, height / 2) + Area(p, height), AlignUp(2 * width, 64)))
    else if id.OtherId? then None
    else
      var b := PixelBytes(id) * width;
      Some(Layout(b, 0, 0, 0, AlignUp(b, 64)))
  }

  /** The height the frame is laid out with: a planar image has whole
      chroma rows, so an even number of luma rows. */
  function FrameHeight(id: FourCC, height: nat): (r: nat)
    ensures Planar(id) ==> r % 2 == 0 && height <= r <= height + 1
    ensures !Planar(id) ==> r == height
  {
    if Planar(id) then AlignUp(height, 2) else height
  }

  /** The layout for the image as `NVQueryImageAttributes` shaped it:
      width rounded up to even, a planar height rounded up to even. */
  function SourceLayout(id: FourCC, width: nat, height: nat): (r: Option<Layout>)
    ensures r.None? <==> id.OtherId?
  {
    SourceLayoutAsWritten(id, AlignUp(width, 2), FrameHeight(id, height))
  }

  /** For an even width, and an even height when planar, the layout is
      the one `NVPutImage` computes: the two differ only at odd sizes. */
  lemma LayoutAgreesWhenEven(id: FourCC, width: nat, height: nat)
    requires width % 2 == 0 && (Planar(id) ==> height % 2 == 0)
    ensures SourceLayout(id, width, height) == SourceLayoutAsWritten(id, width, height)
  {
    assert AlignUp(width, 2) == width;
    assert FrameHeight(id, height) == height;
  }

  /** At an odd width a packed image is read with another pitch than
      `NVPutImage` uses: a YUY2 image 3 pixels wide has a pitch of 6 bytes
      as written and of 8 in the layout the query reports. */
  lemma OddPackedPitchAsWritten()
    ensures SourceLayoutAsWritten(YUY2, 3, 1).value.srcPitch == 6
    ensures SourceLayout(YUY2, 3, 1).value.srcPitch == 8
  {
    assert AlignUp(3, 2) == 4;
  }

  /** For an image within the advertised 2046 x 2046, the corrected
      layout reads the planes exactly where the query told the client to
      put them. */
  lemma LayoutMatchesQuery(id: FourCC, width: nat, height: nat)
    requires !id.OtherId? && width <= MaxImageSide && height <= MaxImageSide
    ensures var l := SourceLayout(id, width, height).value;
      var q := QueryImageAttributes(id, width, height);
      l.srcPitch == q.pitches[0] &&
      (Planar(id) ==> l.s2offset == q.offsets[1] && l.srcPitch2 == q.pitches[1] &&
                      l.s3offset == q.offsets[2] &&
                      q.size == l.s3offset + Area(l.srcPitch2, FrameHeight(id, height) / 2)) &&
      (!Planar(id) ==> q.size == Area(l.srcPitch, height))
  {
  }

  /** `NVPutImage` as written reads an odd-sized planar image with pitches
      and plane offsets that disagree with the query's: a 9 x 3 YV12 image
      gets a chroma pitch of 4 where the client was told 8, and its second
      plane is looked for 36 bytes in instead of 48. */
  lemma OddPlanarLayoutAsWritten()
    ensures SourceLayoutAsWritten(YV12, 9, 3).value.srcPitch2 == 4
    ensures QueryImageAttributes(YV12, 9, 3).pitches[1] == 8
    ensures SourceLayoutAsWritten(YV12, 9, 3).value.s2offset == 36
    ensures QueryImageAttributes(YV12, 9, 3).offsets[1] == 48
  {
    NineByThreeQuery();
  }

  lemma NineByThreeQuery()
    ensures QueryImageAttributes(YV12, 9, 3).pitches[1] == 8
    ensures QueryImageAttributes(YV12, 9, 3).offsets[1] == 48
  {
  }

  /** `newSize`: the frame's bytes counted in pixels of `bpp` bytes,
      doubled when double buffering. */
  function NewSize(height: nat, dstPitch: nat, bpp: nat, doubleBuffer: bool): (r: nat)
    requires bpp > 0
    ensures r * bpp <= (if doubleBuffer then 2 else 1) * Area(dstPitch, height)
  {
    var n := Area(dstPitch, height) / bpp;
    DivBounds(Area(dstPitch, height), bpp);
    if doubleBuffer then 2 * n else n
  }

  /** When the pixel size divides the pitch (2 and 4 divide 64), the
      memory asked for is exactly one frame, or two when double
      buffering. */
  lemma NewSizeExact(height: nat, dstPitch: nat, bpp: nat, doubleBuffer: bool)
    requires bpp > 0 && dstPitch % bpp == 0
    ensures NewSize(height, dstPitch, bpp, doubleBuffer) * bpp ==
            (if doubleBuffer then 2 else 1) * Area(dstPitch, height)
  {
    var k := dstPitch / bpp;
    DivBounds(dstPitch, bpp);
    assert Area(dstPitch, height) == (height * k) * bpp;
    MultipleMod(height * k, bpp);
  }

  // ---------------------------------------------------------------------
  // Double buffering

  /** The overlay still holds buffer `current` for display: bit
      `1 << (current << 2)` of the buffer register, whose value is read
      from the hardware. */
  predicate BufferBusy(reg: nat, current: nat)
  {
    HasBit(reg, if current == 0 then 1 else 16)
  }

  /** The half of the buffer a frame is written to, and whether the frame
      is left undisplayed. */
  datatype Target = Target(half: nat, skip: bool)

  /** The double-buffer choice of `NVPutImage`: write the current half and
      show it; if the hardware still holds the current half, overwrite the
      other, newest, one and do not show the frame. A single buffer is
      always written at the start and shown. */
  function ChooseBuffer(doubleBuffer: bool, current: nat, reg: nat): (r: Target)
    requires current <= 1
    ensures r.half <= 1
    ensures !doubleBuffer ==> r == Target(0, false)
    ensures doubleBuffer ==> (r.skip <==> BufferBusy(reg, current))
    ensures doubleBuffer ==> (r.half == current <==> !r.skip)
  {
    if !doubleBuffer then Target(0, false)
    else if BufferBusy(reg, current) then Target(1 - current, true)
    else Target(current, false)
  }

  /** The current buffer after a frame: the overlay flips it whenever a
      frame is shown. */
  function NextBuffer(current: nat, t: Target, blitter: bool): (r: nat)
    requires current <= 1
    ensures r <= 1
    ensures r != current <==> !t.skip && !blitter
  {
    if !t.skip && !blitter then 1 - current else current
  }

  /** Two overlay frames shown one after the other use the two halves in
      turn. */
  lemma ShownFramesAlternate(current: nat, reg1: nat, reg2: nat)
    requires current <= 1
    ensures var t1 := ChooseBuffer(true, current, reg1);
      var t2 := ChooseBuffer(true, NextBuffer(current, t1, false), reg2);
      !t1.skip && !t2.skip ==> t1.half != t2.half
  {
  }

  /** A frame that finds its half still held overwrites the half the frame
      before it showed, the newest one, and leaves the choice for the next
      frame as it was. */
  lemma BusyFrameOverwritesNewest(current: nat, reg1: nat, reg2: nat)
    requires current <= 1
    ensures var t1 := ChooseBuffer(true, current, reg1);
      var c1 := NextBuffer(current, t1, false);
      var t2 := ChooseBuffer(true, c1, reg2);
      !t1.skip && t2.skip ==> t2.half == t1.half && NextBuffer(c1, t2, false) == c1
  {
  }

  // ---------------------------------------------------------------------
  // The copied rectangle

  /** One pixel in the 16.16 fixed point of the clipped source window. */
  const One: int := 0x1_0000

  /** A rectangle of whole source pixels: columns `left <= c < right`,
      rows `top <= r < bottom`. */
  datatype Box = Box(left: int, top: int, right: int, bottom: int)

  /** Pixel `c`, the span from `c` to `c + 1`, meets the 16.16 window from
      `lo` to `hi`. */
  predicate Meets(c: int, lo: int, hi: int)
  {
    lo < (c + 1) * One && c * One < hi
  }

  /** The source pixels `NVPutImage` copies for the 16.16 window
      `xa..xb` by `ya..yb`: the pixels it touches and one more on each
      side for the scaler's filter, within the image. The shifts of the
      C code are floor divisions. */
  function ExpandedBox(xa: int, xb: int, ya: int, yb: int, width: nat, height: nat): (b: Box)
    ensures 0 <= b.left && 0 <= b.top && b.right <= width && b.bottom <= height
  {
    Box(Max(0, (xa - One) / One), Max(0, (ya - One) / One),
        Min((xb + 0x1_ffff) / One, width), Min((yb + 0x1_ffff) / One, height))
  }

  /** A column of the image is copied exactly when its pixel meets the
      window widened by one pixel on each side; likewise a row. */
  lemma ExpandedBoxCovers(xa: int, xb: int, ya: int, yb: int, width: nat, height: nat, c: int, d: int)
    ensures var b := ExpandedBox(xa, xb, ya, yb, width, height);
      (b.left <= c < b.right <==> 0 <= c < width && Meets(c, xa - One, xb + One)) &&
      (b.top <= d < b.bottom <==> 0 <= d < height && Meets(d, ya - One, yb + One))
  {
    SpanCovers(xa, xb, width, c);
    SpanCovers(ya, yb, height, d);
  }

  lemma SpanCovers(a: int, b: int, size: nat, c: int)
    ensures Max(0, (a - One) / One) <= c < Min((b + 0x1_ffff) / One, size) <==>
            0 <= c < size && Meets(c, a - One, b + One)
  {
    DivBounds(a - One, One);
    DivBounds(b + 0x1_ffff, One);
  }

  /** The window as the clip helper leaves it: within the image and not
      inverted. */
  predicate ClippedWindow(xa: int, xb: int, ya: int, yb: int, width: nat, height: nat)
  {
    0 <= xa <= xb <= width * One && 0 <= ya <= yb <= height * One
  }

  /** The expanded box of a clipped window is not inverted. */
  lemma ExpandedBoxOrdered(xa: int, xb: int, ya: int, yb: int, width: nat, height: nat)
    requires ClippedWindow(xa, xb, ya, yb, width, height)
    ensures var b := ExpandedBox(xa, xb, ya, yb, width, height);
      b.left <= b.right && b.top <= b.bottom
  {
    DivBounds(xa - One, One);
    DivBounds(xb + 0x1_ffff, One);
    DivBounds(ya - One, One);
    DivBounds(yb + 0x1_ffff, One);
  }

  /** The rectangle a copy covers: its first column and row and its size
      in pixels and lines. */
  datatype Rect = Rect(left: nat, top: nat, npixels: nat, nlines: nat)

  /** The per-format adjustment of `NVPutImage`: a planar copy starts on an
      even column and row and covers whole 2 x 2 chroma samples, a packed
      4:2:2 copy starts on an even column and covers whole macropixels, an
      RGB copy is the box itself. */
  function CopyRect(id: FourCC, b: Box): (r: Rect)
    requires !id.OtherId? && 0 <= b.left <= b.right && 0 <= b.top <= b.bottom
    ensures r.left <= b.left && b.right <= r.left + r.npixels
    ensures r.top <= b.top && b.bottom <= r.top + r.nlines
    ensures id.Rgb? ==> r == Rect(b.left, b.top, b.right - b.left, b.bottom - b.top)
    ensures !id.Rgb? ==> r.left % 2 == 0 && r.npixels % 2 == 0 &&
                         b.left <= r.left + 1 && r.left + r.npixels <= b.right + 1
    ensures Planar(id) ==> r.top % 2 == 0 && r.nlines % 2 == 0 &&
                           b.top <= r.top + 1 && r.top + r.nlines <= b.bottom + 1
    ensures !Planar(id) ==> r.top == b.top && r.nlines == b.bottom - b.top
  {
    if id.Rgb? then
      Rect(b.left, b.top, b.right - b.left, b.bottom - b.top)
    else
      var l := Even(b.left);
      var t := if Planar(id) then Even(b.top) else b.top;
      var bottom := if Planar(id) then AlignUp(b.bottom, 2) else b.bottom;
      Rect(l, t, AlignUp(b.right, 2) - l, bottom - t)
  }

  /** The bytes of one copied line. */
  function RowBytes(id: FourCC, rect: Rect): nat
  {
    PixelBytes(id) * rect.npixels
  }

  /** Where the rectangle lands in a frame of pitch `dstPitch`: byte
      `left` times the pixel size of row `top`. */
  function DstOffset(id: FourCC, dstPitch: nat, rect: Rect): nat
  {
    PixelBytes(id) * rect.left + Area(dstPitch, rect.top)
  }

  /** `NVPutImage` as written copies one line more than a planar frame of
      odd height has room for: a 2 x 1 YV12 frame, double buffered at 4
      bytes a pixel, gets 128 bytes, 64 a half, yet two lines of pitch 64
      are copied into the second half, past the end of the memory. */
  lemma OddPlanarHeightOverrunsAsWritten(l: Layout, asked: int, rect: Rect)
    requires l == SourceLayoutAsWritten(YV12, 2, 1).value
    requires asked == NewSize(1, l.dstPitch, 4, true) * 4
    requires rect == CopyRect(YV12, ExpandedBox(0, 2 * One, 0, One, 2, 1))
    ensures !Fits(asked, asked / 2 + DstOffset(YV12, l.dstPitch, rect), l.dstPitch, RowBytes(YV12, rect), rect.nlines)
  {
    OneLinePitch();
    OneLineSize();
    OneLineRect();
    OneLineOverrun(asked, l.dstPitch, rect);
  }

  lemma OneLineOverrun(asked: int, pitch: nat, rect: Rect)
    requires asked == 128 && pitch == 64 && rect == Rect(0, 0, 2, 2)
    ensures !Fits(asked, asked / 2 + DstOffset(YV12, pitch, rect), pitch, RowBytes(YV12, rect), rect.nlines)
  {
  }

  lemma OneLinePitch()
    ensures SourceLayoutAsWritten(YV12, 2, 1).value.dstPitch == 64
  {
  }

  lemma OneLineRect()
    ensures CopyRect(YV12, ExpandedBox(0, 2 * One, 0, One, 2, 1)) == Rect(0, 0, 2, 2)
  {
  }

  lemma OneLineSize()
    ensures NewSize(1, 64, 4, true) * 4 == 128
  {
  }

  // ---------------------------------------------------------------------
  // NVPutImage

  /** The overlay scales down by at most 8: a drawn side shorter than an
      eighth of the source side is widened to that eighth. The blitter
      draws the size asked. */
  function ClampDrawSize(src: nat, drw: nat, blitter: bool): (r: nat)
    ensures blitter ==> r == drw
    ensures !blitter ==> drw <= r && src < 8 * r + 8
    ensures r == drw || 8 * r <= src
  {
    if !blitter && src > 8 * drw then src / 8 else drw
  }

  /** Clamping a clamped size changes nothing. */
  lemma ClampIdempotent(src: nat, drw: nat, blitter: bool)
    ensures ClampDrawSize(src, ClampDrawSize(src, drw, blitter), blitter) == ClampDrawSize(src, drw, blitter)
  {
  }

  /** The copy `NVPutImage` makes: the layout it reads the image with, the
      rectangle, where it reads the luma (or only) plane and the V and U
      planes of the client's image, and, in bytes from the start of the
      port's memory, the buffer half the frame goes to and where the
      rectangle lands in it. */
  datatype Job = Job(layout: Layout, rect: Rect, luma: nat, chromaV: nat, chromaU: nat, base: nat, dst: nat)

  /** The answer of `NVPutImage` and what it leaves behind: the status, the
      port, what was done to memory, the copy if one is made, the video
      memory offset handed to the display if the frame is shown, and
      whether the blitter armed the timer callback. */
  datatype Frame = Frame(status: Status, port: Port, effects: seq<Effect>, job: Option<Job>,
                         shown: Option<int>, armsTimer: bool)

  /** The pixels asked of the allocator for a frame: `newSize` for the
      frame as laid out. */
  function RequestSize(id: FourCC, width: nat, height: nat, bpp: nat, doubleBuffer: bool): nat
    requires bpp > 0
  {
    if id.OtherId? then 0
    else NewSize(FrameHeight(id, height), SourceLayout(id, width, height).value.dstPitch, bpp, doubleBuffer)
  }

  /** The start of half `half` of a double buffer of `size` pixels of `bpp` bytes,
      `(newSize * bpp) >> 1` bytes in for the second. */
  function HalfStart(half: nat, size: nat, bpp: nat): (r: nat)
    requires half <= 1
    ensures half == 0 ==> r == 0
    ensures half == 1 ==> r + r <= size * bpp <= r + r + 1
  {
    if half == 0 then 0 else (size * bpp) / 2
  }

  /** The offsets of a copy of `rect`. A planar image is read from byte
      `left` of luma row `top` and from both chroma planes at half those
      coordinates (I420 keeps U before V); a packed image from byte `left`
      times the pixel size. */
  function MakeJob(id: FourCC, l: Layout, rect: Rect, base: nat): Job
    requires !id.OtherId?
  {
    if Planar(id) then
      var tmp := Area(l.srcPitch2, rect.top / 2) + rect.left / 2;
      var v := if id.I420? then l.s3offset + tmp else l.s2offset + tmp;
      var u := if id.I420? then l.s2offset + tmp else l.s3offset + tmp;
      Job(l, rect, Area(l.srcPitch, rect.top) + rect.left, v, u, base, base + DstOffset(id, l.dstPitch, rect))
    else
      Job(l, rect, Area(l.srcPitch, rect.top) + PixelBytes(id) * rect.left, 0, 0, base,
          base + DstOffset(id, l.dstPitch, rect))
  }

  /** The rectangle `NVPutImage` copies for the clipped window. */
  function CopiedRect(id: FourCC, xa: int, xb: int, ya: int, yb: int, width: nat, height: nat): (r: Rect)
    requires !id.OtherId? && ClippedWindow(xa, xb, ya, yb, width, height)
    ensures r.left + r.npixels <= AlignUp(width, 2) && r.top + r.nlines <= FrameHeight(id, height)
    ensures !id.Rgb? ==> r.left % 2 == 0 && r.npixels % 2 == 0
    ensures Planar(id) ==> r.top % 2 == 0 && r.nlines % 2 == 0
  {
    ExpandedBoxOrdered(xa, xb, ya, yb, width, height);
    var b := ExpandedBox(xa, xb, ya, yb, width, height);
    CopyRectInFrame(id, b, width, height);
    CopyRect(id, b)
  }

  /** Two ports agree on everything but their memory, status, current
      buffer and deadline: the picture controls, colour key, clip, flags,
      surface pitch and offset. */
  predicate SameSettings(a: Port, b: Port)
  {
    a.(mem := b.mem, status := b.status, currentBuffer := b.currentBuffer, videoTime := b.videoTime) == b
  }

  /** A frame copied into `mem` at the half `t` chose is handed on: left
      undisplayed when skipped, else to the overlay, which flips the
      current buffer and is on, or to the blitter, which starts the free
      timer. */
  function Deliver(p: Port, job: Job, mem: Alloc, fx: seq<Effect>, t: Target,
                   vramBase: int, now: int): (r: Frame)
    requires p.currentBuffer <= 1
    ensures r.status == Success && r.job == Some(job) && r.effects == fx && r.port.mem == Some(mem)
    ensures r.shown.Some? <==> !t.skip
    ensures r.port.currentBuffer == NextBuffer(p.currentBuffer, t, p.blitter)
    ensures r.shown.Some? ==> r.shown.value == mem.offset + job.base - vramBase
    ensures r.shown.Some? && !p.blitter ==> r.port.status == ClientVideoOn && r.port.currentBuffer != p.currentBuffer
    ensures r.shown.Some? && p.blitter ==>
              r.port.status == FreeTimer && r.port.videoTime == Deadline(now, FreeDelay) && r.armsTimer &&
              r.port.currentBuffer == p.currentBuffer
    ensures r.shown.None? ==> r.port.status == p.status && r.port.currentBuffer == p.currentBuffer && !r.armsTimer
    ensures SameSettings(r.port, p)
  {
    var shown := Some(mem.offset + job.base - vramBase);
    if t.skip then Frame(Success, p.(mem := Some(mem)), fx, Some(job), None, false)
    else if p.blitter then
      Frame(Success, p.(mem := Some(mem), status := FreeTimer, videoTime := Deadline(now, FreeDelay)), fx, Some(job), shown, true)
    else
      Frame(Success, p.(mem := Some(mem), status := ClientVideoOn, currentBuffer := 1 - p.currentBuffer),
            fx, Some(job), shown, false)
  }

  /** `NVPutImage` after the draw size is clamped, for a window the clip
      helper left visible (`xa..xb` by `ya..yb` in 16.16) or not. A port
      grabbed by V4L and an invisible window are answered with success and
      nothing done; an unknown format with `BadImplementation`. Otherwise
      the port's memory is made large enough for the frame (twice that
      when double buffering) or the request fails with `BadAlloc`; the
      half chosen is written and the frame delivered. The image is laid
      out as the query shaped it. */
  function PutImage(p: Port, id: FourCC, width: nat, height: nat,
                    visible: bool, xa: int, xb: int, ya: int, yb: int,
                    bpp: nat, reg: nat, granted: Option<Alloc>, vramBase: int, now: int): (r: Frame)
    requires p.currentBuffer <= 1 && bpp > 0
    requires visible ==> ClippedWindow(xa, xb, ya, yb, width, height)
    requires granted.Some? ==> granted.value.size >= RequestSize(id, width, height, bpp, p.doubleBuffer) * bpp
    ensures p.grabbedByV4L || !visible ==> r == Frame(Success, p, [], None, None, false)
    ensures !p.grabbedByV4L && visible && id.OtherId? ==> r == Frame(BadImplementation, p, [], None, None, false)
  {
    if p.grabbedByV4L || !visible then Frame(Success, p, [], None, None, false)
    else if id.OtherId? then Frame(BadImplementation, p, [], None, None, false)
    else
      var size := RequestSize(id, width, height, bpp, p.doubleBuffer);
      var a := AllocateOverlayMemory(p.mem, size, bpp, granted);
      if a.0.None? then Frame(BadAlloc, p.(mem := None), a.1, None, None, false)
      else Place(p, id, width, height, xa, xb, ya, yb, bpp, size, a.0.value, a.1, reg, vramBase, now)
  }

  /** A frame of `size` pixels placed in the block `mem`: the half the
      double buffer choice picks is written and the frame delivered. */
  function Place(p: Port, id: FourCC, width: nat, height: nat,
                 xa: int, xb: int, ya: int, yb: int,
                 bpp: nat, size: nat, mem: Alloc, fx: seq<Effect>, reg: nat, vramBase: int, now: int): (r: Frame)
    requires p.currentBuffer <= 1 && !id.OtherId?
    requires ClippedWindow(xa, xb, ya, yb, width, height)
    ensures r.status == Success && r.job.Some? && r.port.mem == Some(mem) && r.effects == fx
    ensures !p.doubleBuffer ==> r.shown.Some? && r.job.value.base == 0
    ensures SameSettings(r.port, p)
    ensures r.port.currentBuffer <= 1
  {
    var t := ChooseBuffer(p.doubleBuffer, p.currentBuffer, reg);
    var rect := CopiedRect(id, xa, xb, ya, yb, width, height);
    var job := MakeJob(id, SourceLayout(id, width, height).value, rect, HalfStart(t.half, size, bpp));
    Deliver(p, job, mem, fx, t, vramBase, now)
  }

  /** A frame refused for lack of memory leaves the port as it was, but
      without memory: its old block was freed and nothing was shown. */
  lemma AllocFailureDropsMemory(p: Port, id: FourCC, width: nat, height: nat,
                                visible: bool, xa: int, xb: int, ya: int, yb: int,
                                bpp: nat, reg: nat, granted: Option<Alloc>, vramBase: int, now: int)
    requires p.currentBuffer <= 1 && bpp > 0
    requires visible ==> ClippedWindow(xa, xb, ya, yb, width, height)
    requires granted.Some? ==> granted.value.size >= RequestSize(id, width, height, bpp, p.doubleBuffer) * bpp
    ensures var r := PutImage(p, id, width, height, visible, xa, xb, ya, yb, bpp, reg, granted, vramBase, now);
      r.status == BadAlloc <==> !p.grabbedByV4L && visible && !id.OtherId? && granted.None? &&
                                !(p.mem.Some? && p.mem.value.size >= RequestSize(id, width, height, bpp, p.doubleBuffer) * bpp)
    ensures var r := PutImage(p, id, width, height, visible, xa, xb, ya, yb, bpp, reg, granted, vramBase, now);
      r.status == BadAlloc ==>
        r.port == p.(mem := None) && r.shown.None? &&
        r.effects == (if p.mem.Some? then [Freed(p.mem.value)] else [])
  {
  }

  /** A frame that is copied was placed by `Place` in memory large enough
      for it: the port's old block when that was large enough, else the
      block granted. A frame that is not copied is not shown. */
  lemma PutImagePlaces(p: Port, id: FourCC, width: nat, height: nat,
                       visible: bool, xa: int, xb: int, ya: int, yb: int,
                       bpp: nat, reg: nat, granted: Option<Alloc>, vramBase: int, now: int)
    requires p.currentBuffer <= 1 && bpp > 0
    requires visible ==> ClippedWindow(xa, xb, ya, yb, width, height)
    requires granted.Some? ==> granted.value.size >= RequestSize(id, width, height, bpp, p.doubleBuffer) * bpp
    ensures var r := PutImage(p, id, width, height, visible, xa, xb, ya, yb, bpp, reg, granted, vramBase, now);
      r.job.None? ==> r.shown.None?
    ensures var r := PutImage(p, id, width, height, visible, xa, xb, ya, yb, bpp, reg, granted, vramBase, now);
      var size := RequestSize(id, width, height, bpp, p.doubleBuffer);
      r.job.Some? ==>
        visible && !id.OtherId? && !p.grabbedByV4L &&
        r.port.mem.Some? && r.port.mem.value.size >= size * bpp &&
        (p.mem.Some? && p.mem.value.size >= size * bpp ==> r.port.mem == p.mem) &&
        (!(p.mem.Some? && p.mem.value.size >= size * bpp) ==> r.port.mem == granted) &&
        r == Place(p, id, width, height, xa, xb, ya, yb, bpp, size, r.port.mem.value, r.effects, reg, vramBase, now)
  {
    if !p.grabbedByV4L && visible && !id.OtherId? {
      var size := RequestSize(id, width, height, bpp, p.doubleBuffer);
      var a := AllocateOverlayMemory(p.mem, size, bpp, granted);
      if a.0.Some? {
        var f := Place(p, id, width, height, xa, xb, ya, yb, bpp, size, a.0.value, a.1, reg, vramBase, now);
        assert PutImage(p, id, width, height, visible, xa, xb, ya, yb, bpp, reg, granted, vramBase, now) == f;
      }
    }
  }

  /** `NVPutImage` changes only the port's memory, status, current buffer
      and deadline, and leaves the current buffer a valid index. */
  lemma PutImageKeepsSettings(p: Port, id: FourCC, width: nat, height: nat,
                              visible: bool, xa: int, xb: int, ya: int, yb: int,
                              bpp: nat, reg: nat, granted: Option<Alloc>, vramBase: int, now: int)
    requires p.currentBuffer <= 1 && bpp > 0
    requires visible ==> ClippedWindow(xa, xb, ya, yb, width, height)
    requires granted.Some? ==> granted.value.size >= RequestSize(id, width, height, bpp, p.doubleBuffer) * bpp
    ensures var r := PutImage(p, id, width, height, visible, xa, xb, ya, yb, bpp, reg, granted, vramBase, now);
      SameSettings(r.port, p) && r.port.currentBuffer <= 1
  {
    PutImagePlaces(p, id, width, height, visible, xa, xb, ya, yb, bpp, reg, granted, vramBase, now);
  }

  /** Where `Place` writes and whether it shows: the half the buffer
      choice picked, shown unless skipped, and the current buffer moved on
      as `NextBuffer` says. */
  lemma PlaceFollowsChoice(p: Port, id: FourCC, width: nat, height: nat,
                           xa: int, xb: int, ya: int, yb: int,
                           bpp: nat, size: nat, mem: Alloc, fx: seq<Effect>, reg: nat, vramBase: int, now: int)
    requires p.currentBuffer <= 1 && !id.OtherId?
    requires ClippedWindow(xa, xb, ya, yb, width, height)
    ensures var f := Place(p, id, width, height, xa, xb, ya, yb, bpp, size, mem, fx, reg, vramBase, now);
      var t := ChooseBuffer(p.doubleBuffer, p.currentBuffer, reg);
      f.job.value.base == HalfStart(t.half, size, bpp) && (f.shown.Some? <==> !t.skip) &&
      f.port.currentBuffer == NextBuffer(p.currentBuffer, t, p.blitter)
  {
  }

  /** A double buffered frame of a non-empty image asks for at least two
      bytes, so its two halves start apart. */
  lemma RequestNonEmpty(id: FourCC, width: nat, height: nat, bpp: nat)
    requires !id.OtherId? && width > 0 && height > 0 && (bpp == 1 || bpp == 2 || bpp == 4)
    ensures RequestSize(id, width, height, bpp, true) * bpp >= 2
  {
    var w2 := AlignUp(width, 2);
    var fh := FrameHeight(id, height);
    var pitch := SourceLayoutAsWritten(id, w2, fh).value.dstPitch;
    assert RequestSize(id, width, height, bpp, true) == NewSize(fh, pitch, bpp, true);
    MulAwayFromZero(PixelBytes(id), w2);
    MulAwayFromZero(pitch, fh);
    assert Area(pitch, fh) >= 1;
    PitchDivisible(pitch, bpp);
    NewSizeExact(fh, pitch, bpp, true);
  }

  /** Two frames of the same image shown one after the other by a double
      buffered overlay go to the two halves of the same memory in turn, so
      the second never overwrites the frame on display. */
  lemma ShownImagesAlternate(p: Port, id: FourCC, width: nat, height: nat,
                             xa: int, xb: int, ya: int, yb: int,
                             bpp: nat, reg1: nat, reg2: nat, granted: Option<Alloc>, vramBase: int, now: int)
    requires p.currentBuffer <= 1 && (bpp == 1 || bpp == 2 || bpp == 4) && !p.blitter && p.doubleBuffer
    requires width > 0 && height > 0 && ClippedWindow(xa, xb, ya, yb, width, height)
    requires granted.Some? ==> granted.value.size >= RequestSize(id, width, height, bpp, p.doubleBuffer) * bpp
    ensures var r1 := PutImage(p, id, width, height, true, xa, xb, ya, yb, bpp, reg1, granted, vramBase, now);
      r1.port.currentBuffer <= 1 &&
      var r2 := PutImage(r1.port, id, width, height, true, xa, xb, ya, yb, bpp, reg2, None, vramBase, now);
      r1.shown.Some? && r2.shown.Some? ==>
        r1.job.Some? && r2.job.Some? && r2.port.mem == r1.port.mem && r1.job.value.base != r2.job.value.base
  {
    var r1 := PutImage(p, id, width, height, true, xa, xb, ya, yb, bpp, reg1, granted, vramBase, now);
    PutImagePlaces(p, id, width, height, true, xa, xb, ya, yb, bpp, reg1, granted, vramBase, now);
    PutImageKeepsSettings(p, id, width, height, true, xa, xb, ya, yb, bpp, reg1, granted, vramBase, now);
    var r2 := PutImage(r1.port, id, width, height, true, xa, xb, ya, yb, bpp, reg2, None, vramBase, now);
    PutImagePlaces(r1.port, id, width, height, true, xa, xb, ya, yb, bpp, reg2, None, vramBase, now);
    if r1.shown.Some? && r2.shown.Some? {
      var size := RequestSize(id, width, height, bpp, true);
      var mem := r1.port.mem.value;
      assert r2.port.mem == r1.port.mem;
      PlacedHalvesAlternate(p, id, width, height, xa, xb, ya, yb, bpp, size, mem,
                            r1.effects, r2.effects, reg1, reg2, vramBase, now);
    }
  }

  /** Two placed overlay frames both shown write different halves. */
  lemma PlacedHalvesAlternate(p: Port, id: FourCC, width: nat, height: nat,
                              xa: int, xb: int, ya: int, yb: int,
                              bpp: nat, size: nat, mem: Alloc, fx1: seq<Effect>, fx2: seq<Effect>,
                              reg1: nat, reg2: nat, vramBase: int, now: int)
    requires p.currentBuffer <= 1 && !id.OtherId? && !p.blitter && p.doubleBuffer
    requires width > 0 && height > 0 && (bpp == 1 || bpp == 2 || bpp == 4)
    requires size == RequestSize(id, width, height, bpp, true)
    requires ClippedWindow(xa, xb, ya, yb, width, height)
    ensures var f1 := Place(p, id, width, height, xa, xb, ya, yb, bpp, size, mem, fx1, reg1, vramBase, now);
      var f2 := Place(f1.port, id, width, height, xa, xb, ya, yb, bpp, size, mem, fx2, reg2, vramBase, now);
      f1.shown.Some? && f2.shown.Some? ==> f1.job.value.base != f2.job.value.base
  {
    var f1 := Place(p, id, width, height, xa, xb, ya, yb, bpp, size, mem, fx1, reg1, vramBase, now);
    PlaceFollowsChoice(p, id, width, height, xa, xb, ya, yb, bpp, size, mem, fx1, reg1, vramBase, now);
    PlaceFollowsChoice(f1.port, id, width, height, xa, xb, ya, yb, bpp, size, mem, fx2, reg2, vramBase, now);
    var t1 := ChooseBuffer(true, p.currentBuffer, reg1);
    var t2 := ChooseBuffer(true, f1.port.currentBuffer, reg2);
    ShownFramesAlternate(p.currentBuffer, reg1, reg2);
    RequestNonEmpty(id, width, height, bpp);
    if !t1.skip && !t2.skip {
      HalvesDiffer(t1.half, t2.half, size, bpp);
    }
  }

  /** The two halves of a non-empty double buffer start apart. */
  lemma HalvesDiffer(h1: nat, h2: nat, size: nat, bpp: nat)
    requires h1 <= 1 && h2 <= 1 && h1 != h2 && size * bpp >= 2
    ensures HalfStart(h1, size, bpp) != HalfStart(h2, size, bpp)
  {
  }

  /** Every byte the copy of `j` writes lies in the half of the port's
      memory (of `memSize` bytes) the frame was given, a whole frame of
      `dstPitch` rows, and both halves lie inside the memory. */
  predicate WritesInside(id: FourCC, height: nat, doubleBuffer: bool, memSize: int, j: Job)
  {
    var frame := Area(j.layout.dstPitch, FrameHeight(id, height));
    RowBytes(id, j.rect) <= j.layout.dstPitch &&
    j.base <= j.dst &&
    Fits(j.base + frame, j.dst, j.layout.dstPitch, RowBytes(id, j.rect), j.rect.nlines) &&
    (j.base == 0 || j.base == frame) &&
    (if doubleBuffer then 2 * frame else frame) <= memSize
  }

  /** A frame never spills into the other half of the buffer or past the
      end of the port's memory. The pixel size is that of an 8, 16 or 32
      bit screen. */
  lemma PutImageWritesInside(p: Port, id: FourCC, width: nat, height: nat,
                             visible: bool, xa: int, xb: int, ya: int, yb: int,
                             bpp: nat, reg: nat, granted: Option<Alloc>, vramBase: int, now: int)
    requires p.currentBuffer <= 1 && (bpp == 1 || bpp == 2 || bpp == 4)
    requires visible ==> ClippedWindow(xa, xb, ya, yb, width, height)
    requires granted.Some? ==> granted.value.size >= RequestSize(id, width, height, bpp, p.doubleBuffer) * bpp
    ensures var r := PutImage(p, id, width, height, visible, xa, xb, ya, yb, bpp, reg, granted, vramBase, now);
      r.job.Some? ==> r.port.mem.Some? && WritesInside(id, height, p.doubleBuffer, r.port.mem.value.size, r.job.value)
  {
    var r := PutImage(p, id, width, height, visible, xa, xb, ya, yb, bpp, reg, granted, vramBase, now);
    PutImagePlaces(p, id, width, height, visible, xa, xb, ya, yb, bpp, reg, granted, vramBase, now);
    if r.job.Some? {
      var j := r.job.value;
      var t := ChooseBuffer(p.doubleBuffer, p.currentBuffer, reg);
      PlaceFollowsChoice(p, id, width, height, xa, xb, ya, yb, bpp, RequestSize(id, width, height, bpp, p.doubleBuffer),
                         r.port.mem.value, r.effects, reg, vramBase, now);
      assert j.rect == CopiedRect(id, xa, xb, ya, yb, width, height);
      JobWritesInside(id, width, height, bpp, p.doubleBuffer, t.half, r.port.mem.value.size, j);
    }
  }

  lemma JobWritesInside(id: FourCC, width: nat, height: nat, bpp: nat, doubleBuffer: bool,
                        half: nat, memSize: int, j: Job)
    requires !id.OtherId? && (bpp == 1 || bpp == 2 || bpp == 4)
    requires half <= 1 && (!doubleBuffer ==> half == 0)
    requires j == MakeJob(id, SourceLayout(id, width, height).value, j.rect,
                          HalfStart(half, RequestSize(id, width, height, bpp, doubleBuffer), bpp))
    requires j.rect.left + j.rect.npixels <= AlignUp(width, 2) && j.rect.top + j.rect.nlines <= FrameHeight(id, height)
    requires memSize >= RequestSize(id, width, height, bpp, doubleBuffer) * bpp
    ensures WritesInside(id, height, doubleBuffer, memSize, j)
  {
    var fh := FrameHeight(id, height);
    var l := SourceLayoutAsWritten(id, AlignUp(width, 2), fh).value;
    RectInFrame(PixelBytes(id), j.base, j.rect, l.dstPitch, AlignUp(width, 2), fh);
    PitchDivisible(l.dstPitch, bpp);
    NewSizeExact(fh, l.dstPitch, bpp, doubleBuffer);
  }

  /** Every byte the copy of `j` reads lies in the plane it belongs to,
      as the query `q` laid the planes out: luma rows before the first
      chroma plane, chroma rows of half the width and height within the V
      and U planes (YV12 stores V first, I420 U first). */
  predicate ReadsInside(id: FourCC, q: ImageAttrs, j: Job)
    requires Planar(id) ==> |q.offsets| == 3
  {
    if Planar(id) then
      var vFirst := id.YV12?;
      var (vStart, vEnd) := if vFirst then (q.offsets[1], q.offsets[2]) else (q.offsets[2], q.size);
      var (uStart, uEnd) := if vFirst then (q.offsets[2], q.size) else (q.offsets[1], q.offsets[2]);
      Fits(q.offsets[1], j.luma, j.layout.srcPitch, j.rect.npixels, j.rect.nlines) &&
      vStart <= j.chromaV && Fits(vEnd, j.chromaV, j.layout.srcPitch2, j.rect.npixels / 2, j.rect.nlines / 2) &&
      uStart <= j.chromaU && Fits(uEnd, j.chromaU, j.layout.srcPitch2, j.rect.npixels / 2, j.rect.nlines / 2)
    else
      Fits(q.size, j.luma, j.layout.srcPitch, RowBytes(id, j.rect), j.rect.nlines)
  }

  /** For an image of the size the query answered for, the copy reads
      only bytes of the image the client laid out by the query's answer,
      each from its own plane. */
  lemma PutImageReadsInside(p: Port, id: FourCC, width: nat, height: nat,
                            visible: bool, xa: int, xb: int, ya: int, yb: int,
                            bpp: nat, reg: nat, granted: Option<Alloc>, vramBase: int, now: int)
    requires p.currentBuffer <= 1 && bpp > 0
    requires visible ==> ClippedWindow(xa, xb, ya, yb, width, height)
    requires granted.Some? ==> granted.value.size >= RequestSize(id, width, height, bpp, p.doubleBuffer) * bpp
    requires width <= MaxImageSide && height <= MaxImageSide
    ensures var r := PutImage(p, id, width, height, visible, xa, xb, ya, yb, bpp, reg, granted, vramBase, now);
      r.job.Some? ==> ReadsInside(id, QueryImageAttributes(id, width, height), r.job.value)
  {
    var r := PutImage(p, id, width, height, visible, xa, xb, ya, yb, bpp, reg, granted, vramBase, now);
    PutImagePlaces(p, id, width, height, visible, xa, xb, ya, yb, bpp, reg, granted, vramBase, now);
    if r.job.Some? {
      var j := r.job.value;
      var q := QueryImageAttributes(id, width, height);
      var w2 := AlignUp(width, 2);
      var fh := FrameHeight(id, height);
      LayoutMatchesQuery(id, width, height);
      assert j.layout == SourceLayout(id, width, height).value;
      assert j.rect == CopiedRect(id, xa, xb, ya, yb, width, height);
      if Planar(id) {
        assert q.pitches == [j.layout.srcPitch, j.layout.srcPitch2, j.layout.srcPitch2];
        assert q.offsets == [0, j.layout.s2offset, j.layout.s3offset];
        PlanarReadsInside(id, q, j, w2, fh);
      } else {
        assert q.pitches[0] == PixelBytes(id) * w2 && q.size == Area(q.pitches[0], fh);
        RectInFrame(PixelBytes(id), 0, j.rect, j.layout.srcPitch, w2, fh);
      }
    }
  }

  lemma PlanarReadsInside(id: FourCC, q: ImageAttrs, j: Job, w2: nat, fh: nat)
    requires Planar(id) && w2 % 2 == 0 && fh % 2 == 0
    requires j.layout == SourceLayoutAsWritten(id, w2, fh).value
    requires q.pitches == [j.layout.srcPitch, j.layout.srcPitch2, j.layout.srcPitch2]
    requires q.offsets == [0, j.layout.s2offset, j.layout.s3offset]
    requires q.size == j.layout.s3offset + Area(j.layout.srcPitch2, fh / 2)
    requires j == MakeJob(id, j.layout, j.rect, j.base)
    requires j.rect.left % 2 == 0 && j.rect.npixels % 2 == 0 && j.rect.top % 2 == 0 && j.rect.nlines % 2 == 0
    requires j.rect.left + j.rect.npixels <= w2 && j.rect.top + j.rect.nlines <= fh
    ensures ReadsInside(id, q, j)
  {
    var l := j.layout;
    var rect := j.rect;
    RectInFrame(1, 0, rect, l.srcPitch, w2, fh);
    var c := Rect(rect.left / 2, rect.top / 2, rect.npixels / 2, rect.nlines / 2);
    assert c.left + c.npixels <= w2 / 2 && c.top + c.nlines <= fh / 2;
    RectInFrame(1, l.s2offset, c, l.srcPitch2, w2 / 2, fh / 2);
    RectInFrame(1, l.s3offset, c, l.srcPitch2, w2 / 2, fh / 2);
  }

  /** The copied rectangle lies within the frame: the image width rounded
      up to even, and the frame height. */
  lemma CopyRectInFrame(id: FourCC, b: Box, width: nat, height: nat)
    requires !id.OtherId? && 0 <= b.left <= b.right <= width && 0 <= b.top <= b.bottom <= height
    ensures var r := CopyRect(id, b);
      r.left + r.npixels <= AlignUp(width, 2) && r.top + r.nlines <= FrameHeight(id, height)
  {
  }

  /** A rectangle within a frame `w` pixels wide and `fh` rows high, at
      `pb` bytes a pixel and a pitch that holds the width, writes inside
      the frame. */
  lemma RectInFrame(pb: nat, base: nat, rect: Rect, pitch: nat, w: nat, fh: nat)
    requires rect.left + rect.npixels <= w && pb * w <= pitch && rect.top + rect.nlines <= fh
    ensures pb * rect.npixels <= pitch
    ensures Fits(base + Area(pitch, fh), base + pb * rect.left + Area(pitch, rect.top), pitch, pb * rect.npixels, rect.nlines)
  {
    assert pb * rect.left + pb * rect.npixels <= pitch by {
      assert pb * (rect.left + rect.npixels) <= pb * w;
    }
    if rect.nlines > 0 {
      assert Area(pitch, rect.top) + (rect.nlines - 1) * pitch + pitch == Area(pitch, rect.top + rect.nlines);
      assert Area(pitch, rect.top + rect.nlines) <= Area(pitch, fh);
    }
  }

  /** A multiple of 64 is a multiple of every pixel size. */
  lemma PitchDivisible(pitch: nat, bpp: nat)
    requires pitch % 64 == 0 && (bpp == 1 || bpp == 2 || bpp == 4)
    ensures pitch % bpp == 0
  {
    var q := pitch / 64;
    DivBounds(pitch, 64);
    MultipleMod(q * (64 / bpp), bpp);
  }

  // ---------------------------------------------------------------------
  // NVAllocSurface

  /** The pitch of an offscreen surface `w` pixels wide: the width rounded
      up to even, two bytes a pixel, rounded up to 64. */
  function SurfacePitch(w: nat): (r: nat)
    ensures r % 64 == 0 && 2 * w <= r < 2 * w + 66
  {
    AlignUp(2 * AlignUp(w, 2), 64)
  }

  /** The surface handed to V4L: its size, pitch and offset. */
  datatype Surface = Surface(width: nat, height: nat, pitch: nat, offset: int)

  /** The answer of `NVAllocSurface`: status, port, memory effects and the
      surface if one was made. */
  datatype Grab = Grab(status: Status, port: Port, effects: seq<Effect>, surface: Option<Surface>)

  /** `NVAllocSurface`: V4L takes the overlay for a surface of at most
      2046 x 2046 packed 4:2:2 pixels. A port already grabbed refuses with
      `BadAlloc`, a larger surface with `BadValue`. The pitch is recorded
      before the memory is asked for, so a failed allocation leaves it set
      and the memory gone. On success the overlay is stopped, the port
      idle with an empty clip, grabbed, and the surface at offset 0. */
  function AllocSurface(p: Port, w: nat, h: nat, bpp: nat, granted: Option<Alloc>): (r: Grab)
    requires bpp > 0
    requires granted.Some? ==> granted.value.size >= NewSize(h, SurfacePitch(w), bpp, false) * bpp
    ensures p.grabbedByV4L ==> r == Grab(BadAlloc, p, [], None)
    ensures !p.grabbedByV4L && (w > MaxImageSide || h > MaxImageSide) ==> r == Grab(BadValue, p, [], None)
    ensures r.status == Success <==> !p.grabbedByV4L && w <= MaxImageSide && h <= MaxImageSide && r.port.mem.Some?
    ensures r.status == Success ==>
              r.port.grabbedByV4L && r.port.status == 0 && r.port.clipEmpty && r.port.offset == 0 &&
              r.port.pitch == SurfacePitch(w) &&
              r.port.mem.value.size >= NewSize(h, SurfacePitch(w), bpp, false) * bpp &&
              |r.effects| >= 1 && r.effects[|r.effects| - 1] == OverlayStop &&
              r.surface == Some(Surface(AlignUp(w, 2), h, r.port.pitch, 0))
    ensures r.status == BadAlloc && !p.grabbedByV4L ==>
              r.port == p.(mem := None, pitch := SurfacePitch(w)) && r.surface.None?
  {
    if p.grabbedByV4L then Grab(BadAlloc, p, [], None)
    else if w > MaxImageSide || h > MaxImageSide then Grab(BadValue, p, [], None)
    else
      var pitch := SurfacePitch(w);
      var (mem, fx) := AllocateOverlayMemory(p.mem, NewSize(h, pitch, bpp, false), bpp, granted);
      var q := p.(pitch := pitch, mem := mem);
      if mem.None? then Grab(BadAlloc, q, fx, None)
      else
        Grab(Success, q.(offset := 0, status := 0, clipEmpty := true, grabbedByV4L := true),
             fx + [OverlayStop], Some(Surface(AlignUp(w, 2), h, pitch, 0)))
  }

  /** A surface is laid out as a packed 4:2:2 image of its size would be
      for the overlay, and its memory holds one such frame. */
  lemma SurfaceHoldsFrame(p: Port, w: nat, h: nat, bpp: nat, granted: Option<Alloc>)
    requires bpp == 1 || bpp == 2 || bpp == 4
    requires granted.Some? ==> granted.value.size >= NewSize(h, SurfacePitch(w), bpp, false) * bpp
    ensures var r := AllocSurface(p, w, h, bpp, granted);
      r.status == Success ==>
        r.port.pitch == SourceLayout(YUY2, w, h).value.dstPitch &&
        Area(r.port.pitch, h) <= r.port.mem.value.size
  {
    PitchDivisible(SurfacePitch(w), bpp);
    NewSizeExact(h, SurfacePitch(w), bpp, false);
  }
}
