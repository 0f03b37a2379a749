/** `nv04_video_overlay.c`: the attribute handlers of the NV04 overlay
    port, the values `NV04PutOverlayImage` programs into the NV_PVIDEO
    registers, and `NV04StopOverlay`. */
module Nv04Overlay {
  import opened CArith
  import opened MemCopy
  import opened Video
  import VideoImage

  // ---------------------------------------------------------------------
  // Port attributes

  /** The four atoms the NV04 overlay port answers to. */
  predicate Nv04Knows(a: Attr)
  {
    a.Brightness? || a.ColorKey? || a.AutopaintColorKey? || a.SetDefaults?
  }

  /** The attributes the NV04 port reads back. */
  predicate Nv04Gettable(a: Attr)
  {
    Nv04Knows(a) && !a.SetDefaults?
  }

  /** `NV04SetOverlayPortAttribute`: a brightness outside [-512, 512] or
      an autopaint flag other than 0 or 1 answers `BadValue`, an atom the
      port does not know `BadMatch`, both leaving the port alone; any
      colour key is taken as 32 bits and empties the saved clip so the key
      is repainted; the set-defaults atom restores the port defaults. */
  function SetAttr(p: Port, videoKey: int, a: Attr, v: int): (r: Reply)
    requires IsInt32(v)
    ensures r.status == Success || r.status == BadValue || r.status == BadMatch
    ensures r.status == BadMatch <==> !Nv04Knows(a)
    ensures r.status == BadValue <==> Nv04Knows(a) && !OverlayInRange(a, v)
    ensures r.status != Success ==> r.port == p
    ensures r.port.status == p.status && r.port.mem == p.mem
  {
    if !Nv04Knows(a) then Reply(BadMatch, p)
    else if !OverlayInRange(a, v) then Reply(BadValue, p)
    else
      var q := match a
        case Brightness => p.(brightness := v)
        case ColorKey => p.(colorKey := ToCard32(v), clipEmpty := true)
        case AutopaintColorKey => p.(autopaint := v == 1)
        case _ => Defaults(p, videoKey);
      Reply(Success, q)
  }

  /** `NV04GetOverlayPortAttribute`: the brightness, the colour key as an
      `INT32`, the autopaint flag as 0/1; `BadMatch` for anything else. */
  function GetAttr(p: Port, a: Attr): (r: Got)
    ensures r.status == Success <==> Nv04Gettable(a)
    ensures r.status != Success ==> r == Got(BadMatch, 0)
  {
    match a
    case Brightness => Got(Success, p.brightness)
    case ColorKey => Got(Success, ToInt32(p.colorKey))
    case AutopaintColorKey => Got(Success, BoolValue(p.autopaint))
    case _ => Got(BadMatch, 0)
  }

  /** On the atoms it knows the NV04 port behaves exactly as the generic
      overlay port; every other atom it refuses, even those the generic
      port accepts. */
  lemma SetAgreesWithOverlay(p: Port, videoKey: int, a: Attr, v: int)
    requires IsInt32(v)
    ensures Nv04Knows(a) ==> SetAttr(p, videoKey, a, v) == SetOverlayAttr(p, videoKey, a, v)
    ensures !Nv04Knows(a) ==> SetAttr(p, videoKey, a, v) == Reply(BadMatch, p)
  {
  }

  /** Reading an attribute the NV04 port knows gives what the generic
      overlay port would give. */
  lemma GetAgreesWithOverlay(p: Port, a: Attr)
    ensures Nv04Gettable(a) ==> GetAttr(p, a) == GetOverlayAttr(p, a)
    ensures !Nv04Gettable(a) ==> GetAttr(p, a).status == BadMatch
  {
  }

  /** Setting an attribute and reading it back gives the value set. */
  lemma Nv04SetGet(p: Port, videoKey: int, a: Attr, v: int)
    requires IsInt32(v) && Nv04Gettable(a)
    ensures var r := SetAttr(p, videoKey, a, v);
      r.status == Success ==> GetAttr(r.port, a) == Got(Success, v)
  {
    SetAgreesWithOverlay(p, videoKey, a, v);
    OverlaySetGet(p, videoKey, a, v);
    GetAgreesWithOverlay(SetAttr(p, videoKey, a, v).port, a);
  }

  /** Setting one attribute leaves the others as they read before. */
  lemma Nv04SetLeavesOthers(p: Port, videoKey: int, a: Attr, b: Attr, v: int)
    requires IsInt32(v) && !a.SetDefaults? && Nv04Gettable(b) && a != b
    ensures GetAttr(SetAttr(p, videoKey, a, v).port, b) == GetAttr(p, b)
  {
  }

  /** The set-defaults atom reads back as zero brightness, colour-key
      painting on and the screen's default key. */
  lemma Nv04DefaultsRead(p: Port, videoKey: int, v: int)
    requires IsInt32(v) && IsInt32(videoKey)
    ensures var q := SetAttr(p, ToCard32(videoKey), SetDefaults, v).port;
      GetAttr(q, Brightness) == Got(Success, 0) &&
      GetAttr(q, AutopaintColorKey) == Got(Success, 1) &&
      GetAttr(q, ColorKey) == Got(Success, videoKey)
  {
    Int32RoundTrip(videoKey);
  }

  // ---------------------------------------------------------------------
  // The NV_PVIDEO registers

  /** The overlay bits of NV_PVIDEO_OVERLAY (0x244). */
  const VideoOn: nat := 0x001
  const UseColorKey: nat := 0x010
  const FormatYuy2: nat := 0x100

  /** The NV_PVIDEO registers the NV04 overlay programs, by offset:
      the step size (0x200), the vertical and horizontal filter controls
      (0x204, 0x208), the start address, pitch and offset of each of the
      two buffers (0x20C-0x220), the OE, SU and RM states (0x224-0x22C),
      the window start and size (0x230, 0x234), the FIFO threshold and
      burst length (0x238, 0x23C), the colour key (0x240), the overlay
      control (0x244) and the colour-space converter (0x280-0x28C). */
  datatype Pvideo = Pvideo(
    stepSize: nat, controlY: nat, controlX: nat,
    start0: nat, start1: nat, pitch0: nat, pitch1: nat, offset0: nat, offset1: nat,
    oeState: nat, suState: nat, rmState: nat,
    windowStart: nat, windowSize: nat, fifoThres: nat, fifoBurst: nat,
    colorKey: nat, overlay: nat,
    redCsc: nat, greenCsc: nat, blueCsc: nat, cscAdjust: nat)

  /** The port and the registers after a frame is shown. */
  datatype Shown = Shown(port: Port, regs: Pvideo)

  /** `BoxRec`: the destination rectangle on the screen, columns
      `x1 <= x < x2` and rows `y1 <= y < y2`. */
  datatype DstBox = DstBox(x1: int, y1: int, x2: int, y2: int)

  /** A destination box as the driver hands it over: on the screen, in
      the range of a `short`, and with room to double its rows when the
      mode scans every line twice. */
  predicate OnScreen(b: DstBox, dblscan: bool)
  {
    var yMax := if dblscan then 0x3FFF else 0x7FFF;
    0 <= b.x1 <= b.x2 <= 0x7FFF && 0 <= b.y1 <= b.y2 <= yMax
  }

  /** A vertical distance in the overlay's lines: doubled in a
      double-scan mode. */
  function Scan(y: int, dblscan: bool): int
  {
    if dblscan then 2 * y else y
  }

  /** A source span and the span it is drawn to that the scaler can take:
      at least one source pixel, at least two drawn pixels (the step
      divides by one less than the drawn span), and a drawn span of more
      than an eighth of the source, which is what the clamp in
      `NVPutImage` leaves. */
  predicate Scalable(src: int, drw: int)
  {
    1 <= src && 2 <= drw && src < 8 * drw + 8
  }

  /** `((src - 1) << 11) / (drw - 1)`: the distance in the source between
      the samples of two neighbouring drawn pixels, in 5.11 fixed point,
      rounded down; it fits the 16-bit half of the step register. */
  function StepSize(src: int, drw: int): (s: nat)
    requires Scalable(src, drw)
    ensures s * (drw - 1) <= (src - 1) * 2048 < (s + 1) * (drw - 1)
    ensures s < U16
  {
    var d := drw - 1;
    var s := ((src - 1) * 2048) / d;
    DivBounds((src - 1) * 2048, d);
    StepBound(s, src - 1, d);
    s
  }

  /** The quotient of at most `(8d + 14) * 2048` by `d >= 1` is at most
      22 * 2048. */
  lemma StepBound(s: nat, n: nat, d: nat)
    requires d >= 1 && n <= 8 * d + 14 && s * d <= n * 2048
    ensures s <= 45056
  {
    assert n * 2048 <= 45056 * d;
    if s > 45056 {
      MulLe(45057, s, d);
    }
  }

  /** Drawing a span at its own size steps exactly one source pixel,
      0x800 in 5.11 fixed point. */
  lemma StepUnscaled(n: int)
    requires 2 <= n
    ensures StepSize(n, n) == 0x800
  {
    DivUnique((n - 1) * 2048, n - 1, 2048);
  }

  /** `brightness * 62 / 512` with C's truncating division: how far the
      brightness moves the converter's offsets. */
  function CscShift(b: int): (s: int)
    ensures -512 <= b <= 512 ==> -62 <= s <= 62
  {
    CDivBounds(b * 62, 512);
    CDiv(b * 62, 512)
  }

  /** The words `NV04PutOverlayImage` writes to the red, green and blue
      offsets of the colour-space converter for a brightness. */
  function RedCsc(b: int): nat { ToCard32(0x69 - CscShift(b)) }
  function GreenCsc(b: int): nat { ToCard32(0x3E + CscShift(b)) }
  function BlueCsc(b: int): nat { ToCard32(0x89 - CscShift(b)) }

  /** Because the division truncates, a brightness within eight steps of
      zero, on either side, leaves the converter at its neutral offsets. */
  lemma CscNeutralBand(b: int)
    requires -8 <= b <= 8
    ensures RedCsc(b) == 0x69 && GreenCsc(b) == 0x3E && BlueCsc(b) == 0x89
  {
    if b < 0 {
      CDivNeg(-b * 62, 512);
      CDivNonNeg(-b * 62, 512);
    } else {
      CDivNonNeg(b * 62, 512);
    }
  }

  /** Over the accepted brightness range the offsets are bytes, and
      opposite brightnesses move them by the same amount in opposite
      directions around the neutral values. */
  lemma CscSymmetric(b: int)
    requires -512 <= b <= 512
    ensures RedCsc(b) < 256 && GreenCsc(b) < 256 && BlueCsc(b) < 256
    ensures RedCsc(b) + RedCsc(-b) == 2 * 0x69
    ensures GreenCsc(b) + GreenCsc(-b) == 2 * 0x3E
    ensures BlueCsc(b) + BlueCsc(-b) == 2 * 0x89
  {
    var s := CscShift(b);
    CDivNeg(b * 62, 512);
    assert (-b) * 62 == -(b * 62);
    assert CscShift(-b) == -s;
    OffsetPair(0x69, s);
    OffsetPair(0x3E, s);
    OffsetPair(0x89, s);
  }

  /** An offset moved either way by at most 62 from a base in [62, 193]
      stays a byte, and the two moves cancel. */
  lemma OffsetPair(base: int, s: int)
    requires -62 <= s <= 62 && 62 <= base <= 193
    ensures ToCard32(base - s) < 256 && ToCard32(base + s) < 256
    ensures ToCard32(base - s) + ToCard32(base + s) == 2 * base
  {
    SmallWord(base - s);
    SmallWord(base + s);
  }

  /** A small non-negative value is its own 32-bit word. */
  lemma SmallWord(v: int)
    requires 0 <= v < 256
    ensures ToCard32(v) == v
  {
  }

  /** NV_PVIDEO_WINDOW_START, `(y1 << 16) | x1`: the box's top-left
      corner, its row counted in the overlay's lines. */
  function WindowStart(box: DstBox, dblscan: bool): (w: nat)
    requires OnScreen(box, dblscan)
    ensures Hi16(w) == Scan(box.y1, dblscan) && Lo16(w) == box.x1
  {
    var y := Scan(box.y1, dblscan);
    assert y % U16 == y;
    Pack16(y, box.x1)
  }

  /** NV_PVIDEO_WINDOW_SIZE, `((y2 - y1) << 16) | (x2 - x1)`: the box's
      height in the overlay's lines and its width. */
  function WindowSize(box: DstBox, dblscan: bool): (w: nat)
    requires OnScreen(box, dblscan)
    ensures Hi16(w) == Scan(box.y2 - box.y1, dblscan) && Lo16(w) == box.x2 - box.x1
  {
    var h := Scan(box.y2, dblscan) - Scan(box.y1, dblscan);
    assert h == Scan(box.y2 - box.y1, dblscan) && h % U16 == h;
    Pack16(h, box.x2 - box.x1)
  }

  /** NV_PVIDEO_STEP_SIZE: the vertical step in the high half, the
      horizontal step in the low half. */
  function StepWord(srcW: int, srcH: int, drwW: int, drwH: int): (w: nat)
    requires Scalable(srcW, drwW) && Scalable(srcH, drwH)
    ensures Hi16(w) == StepSize(srcH, drwH) && Lo16(w) == StepSize(srcW, drwW)
  {
    var stepH := StepSize(srcH, drwH);
    assert stepH % U16 == stepH;
    Pack16(stepH, StepSize(srcW, drwW))
  }

  /** The overlay control `NV04PutOverlayImage` writes: video on, colour
      keying, YUY2. */
  const OverlayShown: nat := 0x111

  lemma OverlayShownBits()
    ensures OverlayShown == VideoOn + UseColorKey + FormatYuy2
    ensures HasBit(OverlayShown, VideoOn) && HasBit(OverlayShown, UseColorKey)
    ensures HasBit(OverlayShown, FormatYuy2)
  {
  }

  /** `NV04PutOverlayImage` past the colour-key painting: in a
      double-scan mode the box's rows and the drawn height double; the
      OE, SU and RM states are reset, both buffers get the frame's start
      and pitch with no offset, the window gets the box, the step register
      the vertical and horizontal steps, the converter the brightness
      offsets, the filters, FIFO and colour key their values, the overlay
      is switched on with colour keying in YUY2, and the SU state read
      back from the hardware (`suRead`) is written with bit 16 flipped to
      make the engine take the new buffer. The port is then showing. */
  function PutOverlay(p: Port, offset: int, dstPitch: int, box: DstBox,
                      srcW: int, srcH: int, drwW: int, drwH: int,
                      dblscan: bool, suRead: nat): (r: Shown)
    requires OnScreen(box, dblscan)
    requires dblscan ==> drwH <= 0x3FFF
    requires Scalable(srcW, drwW) && Scalable(srcH, Scan(drwH, dblscan))
    ensures r.port == p.(status := ClientVideoOn)
    ensures Hi16(r.regs.windowStart) == Scan(box.y1, dblscan) && Lo16(r.regs.windowStart) == box.x1
    ensures Hi16(r.regs.windowSize) == Scan(box.y2 - box.y1, dblscan)
    ensures Lo16(r.regs.windowSize) == box.x2 - box.x1
    ensures Hi16(r.regs.stepSize) == StepSize(srcH, Scan(drwH, dblscan))
    ensures Lo16(r.regs.stepSize) == StepSize(srcW, drwW)
    ensures r.regs.start0 == r.regs.start1 == ToCard32(offset)
    ensures r.regs.pitch0 == r.regs.pitch1 == ToCard32(dstPitch)
    ensures r.regs.offset0 == r.regs.offset1 == 0
    ensures r.regs.overlay == OverlayShown
    ensures HasBit(r.regs.suState, U16) != HasBit(suRead, U16) && r.regs.suState % U16 == suRead % U16
    ensures r.regs.oeState == 0 && r.regs.rmState == 0
    ensures r.regs.colorKey == ToCard32(p.colorKey)
    ensures r.regs.redCsc == RedCsc(p.brightness) && r.regs.greenCsc == GreenCsc(p.brightness)
    ensures r.regs.blueCsc == BlueCsc(p.brightness) && r.regs.cscAdjust == 0
    ensures r.regs.controlY == 0x001 && r.regs.controlX == 0x111
    ensures r.regs.fifoBurst == 0x03 && r.regs.fifoThres == 0x38
  {
    var b := p.brightness;
    var regs := Pvideo(
      stepSize := StepWord(srcW, srcH, drwW, Scan(drwH, dblscan)), controlY := 0x001, controlX := 0x111,
      start0 := ToCard32(offset), start1 := ToCard32(offset),
      pitch0 := ToCard32(dstPitch), pitch1 := ToCard32(dstPitch),
      offset0 := 0, offset1 := 0,
      oeState := 0, suState := ToggleBit16(suRead), rmState := 0,
      windowStart := WindowStart(box, dblscan), windowSize := WindowSize(box, dblscan),
      fifoThres := 0x38, fifoBurst := 0x03,
      colorKey := ToCard32(p.colorKey), overlay := OverlayShown,
      redCsc := RedCsc(b), greenCsc := GreenCsc(b), blueCsc := BlueCsc(b), cscAdjust := 0);
    Shown(p.(status := ClientVideoOn), regs)
  }

  /** `NV04StopOverlay`: bit 0 of the overlay control is cleared, switching
      the overlay off with its other bits kept, and the OE, SU and RM states
      are reset; no other register changes. */
  function StopOverlay(regs: Pvideo): (r: Pvideo)
    ensures !HasBit(r.overlay, VideoOn) && r.overlay / 2 == regs.overlay / 2
    ensures r.oeState == 0 && r.suState == 0 && r.rmState == 0
    ensures r.(overlay := regs.overlay, oeState := regs.oeState,
               suState := regs.suState, rmState := regs.rmState) == regs
  {
    regs.(overlay := ClearBit0(regs.overlay), oeState := 0, suState := 0, rmState := 0)
  }

  /** Stopping a stopped overlay changes nothing. */
  lemma StopIdempotent(regs: Pvideo)
    ensures StopOverlay(StopOverlay(regs)) == StopOverlay(regs)
  {
    var r := StopOverlay(regs);
    assert r.overlay % 2 == 0;
  }

  /** Stopping a shown frame leaves the overlay control at 0x110: video
      off, colour keying and the YUY2 format kept, and the window where the
      frame was. */
  lemma PutThenStop(p: Port, offset: int, dstPitch: int, box: DstBox,
                    srcW: int, srcH: int, drwW: int, drwH: int,
                    dblscan: bool, suRead: nat)
    requires OnScreen(box, dblscan)
    requires dblscan ==> drwH <= 0x3FFF
    requires Scalable(srcW, drwW) && Scalable(srcH, Scan(drwH, dblscan))
    ensures var shown := PutOverlay(p, offset, dstPitch, box, srcW, srcH, drwW, drwH, dblscan, suRead).regs;
      var s := StopOverlay(shown);
      s.overlay == 0x110 && !HasBit(s.overlay, VideoOn) &&
      HasBit(s.overlay, UseColorKey) && HasBit(s.overlay, FormatYuy2) &&
      s.windowStart == shown.windowStart && s.windowSize == shown.windowSize
  {
    var shown := PutOverlay(p, offset, dstPitch, box, srcW, srcH, drwW, drwH, dblscan, suRead).regs;
    assert shown.overlay == 0x111;
  }

  /** A colour key or brightness a client sets reaches the registers with
      the next frame: the key read back from the colour-key register as an
      `INT32` is the one set, and the converter offsets are bytes placed
      symmetrically about their neutral values, neutral for a brightness
      within eight steps of zero. */
  lemma SetThenPutProgramsAttribute(p: Port, videoKey: int, a: Attr, v: int,
                                    offset: int, dstPitch: int, box: DstBox,
                                    srcW: int, srcH: int, drwW: int, drwH: int,
                                    dblscan: bool, suRead: nat)
    requires IsInt32(v) && SetAttr(p, videoKey, a, v).status == Success
    requires OnScreen(box, dblscan)
    requires dblscan ==> drwH <= 0x3FFF
    requires Scalable(srcW, drwW) && Scalable(srcH, Scan(drwH, dblscan))
    ensures var regs := PutOverlay(SetAttr(p, videoKey, a, v).port, offset, dstPitch, box,
                                   srcW, srcH, drwW, drwH, dblscan, suRead).regs;
      (a.ColorKey? ==> ToInt32(regs.colorKey) == v) &&
      (a.Brightness? ==>
         regs.redCsc < 256 && regs.greenCsc < 256 && regs.blueCsc < 256 &&
         regs.redCsc - 0x69 == 0x3E - regs.greenCsc == regs.blueCsc - 0x89 &&
         (-8 <= v <= 8 <==> regs.redCsc == 0x69))
  {
    var q := SetAttr(p, videoKey, a, v).port;
    var regs := PutOverlay(q, offset, dstPitch, box, srcW, srcH, drwW, drwH, dblscan, suRead).regs;
    if a.ColorKey? {
      KeyRegister(v, q.colorKey, regs.colorKey);
    } else if a.Brightness? {
      assert q.brightness == v;
      CscRegisters(v, regs.redCsc, regs.greenCsc, regs.blueCsc);
    }
  }

  /** A key set as a `CARD32` and written again as one reads back as set. */
  lemma KeyRegister(v: int, key: int, reg: int)
    requires IsInt32(v) && key == ToCard32(v) && reg == ToCard32(key)
    ensures ToInt32(reg) == v
  {
    Int32RoundTrip(v);
    DivUnique(key, U32, 0);
  }

  /** The converter offsets written for an accepted brightness. */
  lemma CscRegisters(b: int, red: int, green: int, blue: int)
    requires -512 <= b <= 512
    requires red == RedCsc(b) && green == GreenCsc(b) && blue == BlueCsc(b)
    ensures red < 256 && green < 256 && blue < 256
    ensures red - 0x69 == 0x3E - green == blue - 0x89
    ensures -8 <= b <= 8 <==> red == 0x69
  {
    CscSymmetric(b);
    CscShiftBounds(b);
  }

  /** The red offset is neutral exactly when the truncated shift is zero,
      which happens exactly within eight steps of zero. */
  lemma CscShiftBounds(b: int)
    requires -512 <= b <= 512
    ensures RedCsc(b) == 0x69 <==> -8 <= b <= 8
    ensures RedCsc(b) - 0x69 == 0x3E - GreenCsc(b) == BlueCsc(b) - 0x89
  {
    var s := CscShift(b);
    SmallWord(0x69 - s);
    SmallWord(0x3E + s);
    SmallWord(0x89 - s);
    var a := if b < 0 then -b * 62 else b * 62;
    CDivNonNeg(a, 512);
    DivBounds(a, 512);
    if b < 0 {
      CDivNeg(-b * 62, 512);
      assert -(-b * 62) == b * 62;
    }
  }

  /** The clamp of `NVPutImage` always leaves a scalable pair when the
      client asks for at least two drawn pixels. */
  lemma ClampedScalable(src: nat, drw: nat)
    requires 1 <= src && 2 <= drw
    ensures Scalable(src, VideoImage.ClampDrawSize(src, drw, false))
  {
  }

  /** The clamp does not rule out a one-pixel drawn span, for which the
      step would divide by zero. */
  lemma OnePixelDrawUnscalable()
    ensures VideoImage.ClampDrawSize(8, 1, false) == 1 && !Scalable(8, 1)
  {
  }
}
