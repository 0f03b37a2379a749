/** The Xv port of `nv_video.c`: the per-port attribute state and its
    validation, the overlay/blit timer state machine, overlay memory
    management, the image layouts a client is told to use, the buffer and
    rectangle arithmetic of `NVPutImage`, and the CPU copies that repack
    planar and packed YUV into the overlay's packed 4:2:2 buffer. */
module Video {
  import opened CArith
  import opened Hw
  import opened MemCopy

  // ---------------------------------------------------------------------
  // Port state

  /** `OFF_TIMER`, `FREE_TIMER` and `CLIENT_VIDEO_ON` in `videoStatus`. */
  const OffTimer: nat := 0x01
  const FreeTimer: nat := 0x02
  const ClientVideoOn: nat := 0x04

  /** Milliseconds before an idle overlay is switched off, and before its
      memory is released. */
  const OffDelay: int := 500
  const FreeDelay: int := 5000

  /** `currentTime + delay` on the server's 32-bit `Time`: the sum wraps
      modulo 2^32. */
  function Deadline(now: int, delay: int): (t: int)
    ensures IsWord(t) && t % U32 == (now + delay) % U32
  {
    (now + delay) % U32
  }

  /** Within `delay` of the top of the 32-bit clock, the deadline wraps to
      a time before `now`: the next timer run, at any time from `now` on,
      finds it passed. */
  lemma DeadlineWrapsEarly(now: int, delay: int)
    requires IsWord(now) && 0 < delay < U32 && now + delay >= U32
    ensures Deadline(now, delay) < now
  {
    DivUnique(now + delay, U32, 1);
  }

  /** The largest image side a client may ask for. */
  const MaxImageSide: nat := 2046

  /** A block of video memory: its offset in VRAM and its size in bytes. */
  datatype Alloc = Alloc(offset: int, size: int)

  /** `NVPortPrivRec`: the picture controls, the colour key and whether
      the saved clip region is empty, the buffering and status flags, the
      timer deadline, and the port's video memory. */
  datatype Port = Port(
    brightness: int, contrast: int, saturation: int, hue: int,
    colorKey: int, clipEmpty: bool, autopaint: bool, doubleBuffer: bool,
    status: nat, currentBuffer: nat, videoTime: int,
    grabbedByV4L: bool, itu709: bool, blitter: bool, syncToVBlank: bool,
    mem: Option<Alloc>, pitch: int, offset: int)

  /** The attribute atoms a port is asked about; any other atom is
      `OtherAtom`. */
  datatype Attr =
    | Brightness | Contrast | Saturation | Hue | ColorKey
    | AutopaintColorKey | DoubleBuffer | Itu709 | SetDefaults | SyncToVBlank
    | OtherAtom(atom: int)

  /** The X protocol status a request answers with. */
  datatype Status = Success | BadValue | BadMatch | BadAlloc | BadImplementation

  /** The answer of a set request: its status and the port afterwards. */
  datatype Reply = Reply(status: Status, port: Port)

  /** The answer of a get request: its status and the value read. */
  datatype Got = Got(status: Status, value: int)

  // ---------------------------------------------------------------------
  // 32-bit values

  const Int32Min: int := -0x8000_0000
  const Int32Lim: int := 0x8000_0000

  predicate IsInt32(v: int) { Int32Min <= v < Int32Lim }

  /** An `INT32` stored into a `CARD32`: the same 32 bits, read unsigned. */
  function ToCard32(v: int): (w: int)
    ensures IsWord(w)
  {
    v % U32
  }

  /** A `CARD32` handed back as an `INT32`. */
  function ToInt32(w: int): int
  {
    if w >= Int32Lim then w - U32 else w
  }

  /** Every `INT32` survives the trip through a `CARD32` field. */
  lemma Int32RoundTrip(v: int)
    requires IsInt32(v)
    ensures ToInt32(ToCard32(v)) == v
  {
    if v < 0 {
      DivUnique(v, U32, -1);
    } else {
      DivUnique(v, U32, 0);
    }
  }

  /** A C boolean read back as 0 or 1. */
  function BoolValue(b: bool): (v: int)
    ensures v == 0 || v == 1
    ensures b <==> v == 1
  {
    if b then 1 else 0
  }

  // ---------------------------------------------------------------------
  // Overlay port attributes

  /** `NVSetPortDefaults`: neutral picture controls, the screen's default
      colour key, colour-key painting and double buffering on, BT.601. */
  function Defaults(p: Port, videoKey: int): (r: Port)
    ensures r.brightness == 0 && r.hue == 0 && r.contrast == 4096 && r.saturation == 4096
    ensures r.colorKey == videoKey && r.autopaint && r.doubleBuffer && !r.itu709
    ensures r.status == p.status && r.mem == p.mem && r.grabbedByV4L == p.grabbedByV4L
  {
    p.(brightness := 0, contrast := 4096, saturation := 4096, hue := 0,
       colorKey := videoKey, autopaint := true, doubleBuffer := true, itu709 := false)
  }

  /** `value %= 360; if (value < 0) value += 360;` with C's remainder. */
  function HueOf(v: int): (h: int)
    ensures 0 <= h < 360
  {
    var m := CMod(v, 360);
    CDivBounds(v, 360);
    if m < 0 then m + 360 else m
  }

  /** The C normalisation of the hue is the Euclidean remainder: the
      angle modulo a full turn. */
  lemma HueIsRemainder(v: int)
    ensures HueOf(v) == v % 360
  {
    CDivMod(v, 360);
    var q := CDiv(v, 360);
    var m := CMod(v, 360);
    CDivBounds(v, 360);
    if m < 0 {
      DivUnique(v, 360, q - 1);
    } else {
      DivUnique(v, 360, q);
    }
  }

  /** The range the overlay setter accepts for a ranged attribute. */
  predicate OverlayInRange(a: Attr, v: int)
  {
    match a
    case Brightness => -512 <= v <= 512
    case Contrast => 0 <= v <= 8191
    case Saturation => 0 <= v <= 8191
    case DoubleBuffer => 0 <= v <= 1
    case AutopaintColorKey => 0 <= v <= 1
    case Itu709 => 0 <= v <= 1
    case _ => true
  }

  /** The attributes the overlay port knows. */
  predicate OverlayKnows(a: Attr)
  {
    !a.OtherAtom? && !a.SyncToVBlank?
  }

  /** `NVSetOverlayPortAttribute`: a value outside the attribute's range
      answers `BadValue` and an unknown atom `BadMatch`, both leaving the
      port alone; the hue is taken modulo 360, the colour key as 32 bits
      (emptying the saved clip so the key is repainted), the booleans as
      0/1. */
  function SetOverlayAttr(p: Port, videoKey: int, a: Attr, v: int): (r: Reply)
    requires IsInt32(v)
    ensures r.status == Success || r.status == BadValue || r.status == BadMatch
    ensures r.status == BadMatch <==> !OverlayKnows(a)
    ensures r.status == BadValue <==> OverlayKnows(a) && !OverlayInRange(a, v)
    ensures r.status != Success ==> r.port == p
    ensures r.port.status == p.status && r.port.mem == p.mem && r.port.grabbedByV4L == p.grabbedByV4L
  {
    if !OverlayKnows(a) then Reply(BadMatch, p)
    else if !OverlayInRange(a, v) then Reply(BadValue, p)
    else
      var q := match a
        case Brightness => p.(brightness := v)
        case DoubleBuffer => p.(doubleBuffer := v == 1)
        case Contrast => p.(contrast := v)
        case Hue => p.(hue := HueOf(v))
        case Saturation => p.(saturation := v)
        case ColorKey => p.(colorKey := ToCard32(v), clipEmpty := true)
        case AutopaintColorKey => p.(autopaint := v == 1)
        case Itu709 => p.(itu709 := v == 1)
        case _ => Defaults(p, videoKey);
      Reply(Success, q)
  }

  /** The attributes the overlay port reads back. */
  predicate OverlayGettable(a: Attr)
  {
    OverlayKnows(a) && !a.SetDefaults?
  }

  /** `NVGetOverlayPortAttribute`: the stored value, booleans as 0/1, the
      colour key as an `INT32`; `BadMatch` for anything else. */
  function GetOverlayAttr(p: Port, a: Attr): (r: Got)
    ensures r.status == Success <==> OverlayGettable(a)
    ensures r.status != Success ==> r.status == BadMatch
  {
    match a
    case Brightness => Got(Success, p.brightness)
    case DoubleBuffer => Got(Success, BoolValue(p.doubleBuffer))
    case Contrast => Got(Success, p.contrast)
    case Saturation => Got(Success, p.saturation)
    case Hue => Got(Success, p.hue)
    case ColorKey => Got(Success, ToInt32(p.colorKey))
    case AutopaintColorKey => Got(Success, BoolValue(p.autopaint))
    case Itu709 => Got(Success, BoolValue(p.itu709))
    case _ => Got(BadMatch, 0)
  }

  /** Setting an attribute and reading it back gives the value set, the
      hue reduced modulo 360. */
  lemma OverlaySetGet(p: Port, videoKey: int, a: Attr, v: int)
    requires IsInt32(v) && OverlayGettable(a)
    ensures var r := SetOverlayAttr(p, videoKey, a, v);
      r.status == Success ==>
        GetOverlayAttr(r.port, a) == Got(Success, if a.Hue? then v % 360 else v)
  {
    if a.Hue? {
      HueIsRemainder(v);
    } else if a.ColorKey? {
      Int32RoundTrip(v);
    }
  }

  /** Setting one attribute leaves every other readable attribute as it
      was. */
  lemma OverlaySetLeavesOthers(p: Port, videoKey: int, a: Attr, b: Attr, v: int)
    requires IsInt32(v) && !a.SetDefaults? && OverlayGettable(b) && a != b
    ensures GetOverlayAttr(SetOverlayAttr(p, videoKey, a, v).port, b) == GetOverlayAttr(p, b)
  {
  }

  /** The set-defaults atom restores the neutral controls, whatever came
      before. */
  lemma OverlayDefaultsRead(p: Port, videoKey: int, v: int)
    requires IsInt32(v) && IsInt32(videoKey)
    ensures var q := SetOverlayAttr(p, ToCard32(videoKey), SetDefaults, v).port;
      GetOverlayAttr(q, Brightness).value == 0 && GetOverlayAttr(q, Contrast).value == 4096 &&
      GetOverlayAttr(q, Saturation).value == 4096 && GetOverlayAttr(q, Hue).value == 0 &&
      GetOverlayAttr(q, DoubleBuffer).value == 1 && GetOverlayAttr(q, AutopaintColorKey).value == 1 &&
      GetOverlayAttr(q, Itu709).value == 0 && GetOverlayAttr(q, ColorKey).value == videoKey
  {
    Int32RoundTrip(videoKey);
  }

  /** One row of the advertised attribute table: the range a client is
      told it may use. */
  datatype TableRow = TableRow(attr: Attr, min: int, max: int)

  /** The ranged rows of `NVOverlayAttributes`. */
  const OverlayTable: seq<TableRow> := [
    TableRow(DoubleBuffer, 0, 1), TableRow(ColorKey, 0, 0xFF_FFFF),
    TableRow(AutopaintColorKey, 0, 1), TableRow(SetDefaults, 0, 0),
    TableRow(Brightness, -512, 511), TableRow(Contrast, 0, 8191),
    TableRow(Saturation, 0, 8191), TableRow(Hue, 0, 360), TableRow(Itu709, 0, 1)]

  /** Every value the table advertises is accepted by the setter. */
  lemma OverlayTableAccepted(p: Port, videoKey: int, i: nat, v: int)
    requires i < |OverlayTable| && OverlayTable[i].min <= v <= OverlayTable[i].max
    ensures SetOverlayAttr(p, videoKey, OverlayTable[i].attr, v).status == Success
  {
  }

  /** The setter accepts brightness 512, one above the table's maximum. */
  lemma BrightnessAboveTable(p: Port, videoKey: int)
    ensures OverlayTable[4].attr == Brightness && OverlayTable[4].max == 511
    ensures SetOverlayAttr(p, videoKey, Brightness, 512).status == Success
    ensures GetOverlayAttr(SetOverlayAttr(p, videoKey, Brightness, 512).port, Brightness).value == 512
  {
  }

  // ---------------------------------------------------------------------
  // Blit port attributes

  /** `NVSetBlitPortAttribute`: the vblank-sync switch exists only when the
      card can wait for vblank; set-defaults turns it on exactly then. */
  function SetBlitAttr(p: Port, vsyncPossible: bool, a: Attr, v: int): (r: Reply)
    ensures r.status == BadMatch <==> !(a.SyncToVBlank? && vsyncPossible) && !a.SetDefaults?
    ensures r.status == BadValue <==> a.SyncToVBlank? && vsyncPossible && !(0 <= v <= 1)
    ensures r.status != Success ==> r.port == p
    ensures r.port == p.(syncToVBlank := r.port.syncToVBlank)
    ensures a.SetDefaults? ==> r.status == Success && r.port.syncToVBlank == vsyncPossible
  {
    if a.SyncToVBlank? && vsyncPossible then
      if v < 0 || v > 1 then Reply(BadValue, p) else Reply(Success, p.(syncToVBlank := v == 1))
    else if a.SetDefaults? then Reply(Success, p.(syncToVBlank := vsyncPossible))
    else Reply(BadMatch, p)
  }

  /** `NVGetBlitPortAttribute`. */
  function GetBlitAttr(p: Port, a: Attr): (r: Got)
    ensures r.status == Success <==> a.SyncToVBlank?
    ensures r.status == Success ==> (r.value == 1 <==> p.syncToVBlank)
  {
    if a.SyncToVBlank? then Got(Success, BoolValue(p.syncToVBlank)) else Got(BadMatch, 0)
  }

  /** On a card that can wait for vblank, the switch reads back as set. */
  lemma BlitSetGet(p: Port, v: int)
    ensures var r := SetBlitAttr(p, true, SyncToVBlank, v);
      r.status == Success ==> GetBlitAttr(r.port, SyncToVBlank) == Got(Success, v)
  {
  }

  // ---------------------------------------------------------------------
  // Timers and memory

  /** What the video code asks of the hardware and the memory manager. */
  datatype Effect = OverlayStop | Freed(block: Alloc)

  /** The overlay and blit ports (absent when the adaptor is), and whether
      the timer callback is armed. */
  datatype Screen = Screen(overlay: Option<Port>, blit: Option<Port>, timerArmed: bool)

  /** The answer of a state transition: the screen afterwards and what was
      done to the hardware and memory, in order. */
  datatype Step = Step(screen: Screen, effects: seq<Effect>)

  /** The memory of a port released: a free of its block, if it had one. */
  function FreeMem(p: Port): (r: (Port, seq<Effect>))
    ensures r.0.mem.None?
    ensures p.mem.None? ==> r.1 == []
    ensures p.mem.Some? ==> r.1 == [Freed(p.mem.value)]
    ensures r.0 == p.(mem := None)
  {
    if p.mem.Some? then (p.(mem := None), [Freed(p.mem.value)]) else (p, [])
  }

  /** A port whose timer still needs the callback at `now`: it is active
      and either its deadline has not passed or a timer stage remains. */
  predicate Pending(p: Option<Port>, now: int)
  {
    p.Some? && p.value.status != 0 &&
    (p.value.videoTime >= now || HasBit(p.value.status, OffTimer) || HasBit(p.value.status, FreeTimer))
  }

  /** The overlay's part of `NVVideoTimerCallback`: once its deadline has
      passed, a port waiting to switch off is stopped and given
      `FREE_DELAY` more, and a port waiting to free its memory frees it and
      goes idle. Answers whether the callback is still needed. */
  function OverlayTimer(p: Port, now: int): (r: (Port, seq<Effect>, bool))
    requires p.status != 0
    ensures p.videoTime < now && HasBit(p.status, OffTimer) ==>
              r.0 == p.(status := FreeTimer, videoTime := Deadline(now, FreeDelay)) && r.1 == [OverlayStop] && r.2
    ensures p.videoTime < now && !HasBit(p.status, OffTimer) && HasBit(p.status, FreeTimer) ==>
              r.0.status == 0 && r.0.mem.None? && !r.2
    ensures p.videoTime >= now ==> r.0 == p && r.1 == [] && r.2
    ensures r.2 <==> Pending(Some(r.0), now)
  {
    if p.videoTime < now then
      if HasBit(p.status, OffTimer) then
        (p.(status := FreeTimer, videoTime := Deadline(now, FreeDelay)), [OverlayStop], true)
      else if HasBit(p.status, FreeTimer) then
        var (q, fx) := FreeMem(p);
        (q.(status := 0), fx, false)
      else
        (p, [], false)
    else
      (p, [], true)
  }

  /** The blit port's part: past its deadline it frees its memory and goes
      idle. */
  function BlitTimer(p: Port, now: int): (r: (Port, seq<Effect>, bool))
    requires p.status != 0
    ensures p.videoTime < now ==> r.0.status == 0 && r.0.mem.None? && !r.2
    ensures p.videoTime >= now ==> r.0 == p && r.1 == [] && r.2
    ensures r.2 <==> BlitPending(Some(r.0), now)
  {
    if p.videoTime < now then
      var (q, fx) := FreeMem(p);
      (q.(status := 0), fx, false)
    else
      (p, [], true)
  }

  /** `NVVideoTimerCallback`: nothing happens while the VT is switched
      away; otherwise each active port runs its timer, and the callback
      stays armed exactly while one of them still needs it. */
  function TimerCallback(s: Screen, vtActive: bool, now: int): (r: Step)
    ensures !vtActive ==> r.screen == s && r.effects == []
    ensures vtActive ==> (r.screen.timerArmed <==> Pending(r.screen.overlay, now) || BlitPending(r.screen.blit, now))
    ensures r.screen.overlay.Some? == s.overlay.Some? && r.screen.blit.Some? == s.blit.Some?
    ensures s.overlay.Some? && s.overlay.value.status == 0 ==> r.screen.overlay == s.overlay
    ensures s.blit.Some? && s.blit.value.status == 0 ==> r.screen.blit == s.blit
  {
    if !vtActive then Step(s, [])
    else
      var (o, ofx, oNeed) :=
        if s.overlay.Some? && s.overlay.value.status != 0 then
          var (q, fx, need) := OverlayTimer(s.overlay.value, now);
          (Some(q), fx, need)
        else (s.overlay, [], false);
      var (b, bfx, bNeed) :=
        if s.blit.Some? && s.blit.value.status != 0 then
          var (q, fx, need) := BlitTimer(s.blit.value, now);
          (Some(q), fx, need)
        else (s.blit, [], false);
      Step(Screen(o, b, oNeed || bNeed), ofx + bfx)
  }

  /** The blit port still needs the callback: active with its deadline
      ahead. */
  predicate BlitPending(p: Option<Port>, now: int)
  {
    p.Some? && p.value.status != 0 && p.value.videoTime >= now
  }

  /** `NVStopOverlayVideo`: a port grabbed by V4L is left alone. Otherwise
      the saved clip is emptied; on exit the overlay is stopped if it was
      showing video, its memory freed and the port made idle; else a port
      showing video starts the switch-off timer, `OFF_DELAY` from `now` on
      the 32-bit clock. */
  function StopOverlayVideo(s: Screen, exit: bool, now: int): (r: Step)
    requires s.overlay.Some?
    ensures r.screen.overlay.Some? && r.screen.blit == s.blit
    ensures s.overlay.value.grabbedByV4L ==> r == Step(s, [])
    ensures !s.overlay.value.grabbedByV4L ==> r.screen.overlay.value.clipEmpty
    ensures !s.overlay.value.grabbedByV4L && exit ==>
              r.screen.overlay.value.status == 0 && r.screen.overlay.value.mem.None?
    ensures !s.overlay.value.grabbedByV4L && !exit && HasBit(s.overlay.value.status, ClientVideoOn) ==>
              r.screen.overlay.value.status == OffTimer + ClientVideoOn &&
              r.screen.overlay.value.videoTime == Deadline(now, OffDelay) && r.screen.timerArmed && r.effects == []
    ensures !exit && !HasBit(s.overlay.value.status, ClientVideoOn) ==>
              r.screen.overlay.value.status == s.overlay.value.status && r.effects == []
  {
    var p := s.overlay.value;
    if p.grabbedByV4L then Step(s, [])
    else
      var p1 := p.(clipEmpty := true);
      if exit then
        var stop := if HasBit(p.status, ClientVideoOn) then [OverlayStop] else [];
        var (q, fx) := FreeMem(p1);
        Step(s.(overlay := Some(q.(status := 0))), stop + fx)
      else if HasBit(p.status, ClientVideoOn) then
        Step(Screen(Some(p1.(status := OffTimer + ClientVideoOn, videoTime := Deadline(now, OffDelay))), s.blit, true), [])
      else
        Step(s.(overlay := Some(p1)), [])
  }

  /** Stopping a playing overlay, then running the timer once the off
      delay and again once the free delay have passed: the overlay is
      switched off, its memory freed and the port idle, and the callback
      disarms itself. */
  lemma StopThenTimersRelease(s: Screen, now: int, t1: int, t2: int)
    requires s.overlay.Some? && !s.overlay.value.grabbedByV4L
    requires HasBit(s.overlay.value.status, ClientVideoOn)
    requires s.blit.None? || s.blit.value.status == 0
    requires 0 <= now && now + OffDelay < t1 && t1 + FreeDelay < t2 < U32
    ensures var a := StopOverlayVideo(s, false, now);
      var b := TimerCallback(a.screen, true, t1);
      var c := TimerCallback(b.screen, true, t2);
      b.effects == [OverlayStop] && b.screen.timerArmed &&
      c.screen.overlay.value.status == 0 && c.screen.overlay.value.mem.None? && !c.screen.timerArmed &&
      a.effects + b.effects + c.effects ==
        [OverlayStop] + (if s.overlay.value.mem.Some? then [Freed(s.overlay.value.mem.value)] else [])
  {
    var a := StopOverlayVideo(s, false, now);
    var p := a.screen.overlay.value;
    assert p.status == 5;
    assert HasBit(5, OffTimer);
    assert p.videoTime == now + OffDelay by {
      DivUnique(now + OffDelay, U32, 0);
    }
    var b := TimerCallback(a.screen, true, t1);
    var q := b.screen.overlay.value;
    assert q.status == FreeTimer;
    assert q.videoTime == t1 + FreeDelay by {
      DivUnique(t1 + FreeDelay, U32, 0);
    }
    assert !HasBit(FreeTimer, OffTimer) && HasBit(FreeTimer, FreeTimer);
  }

  /** Stopping a playing overlay within `OFF_DELAY` of the top of the
      32-bit clock: the deadline wraps, so the very next timer run, even
      at the same time, switches the overlay off instead of waiting. */
  lemma StopNearWrapSwitchesOffAtOnce(s: Screen, now: int)
    requires s.overlay.Some? && !s.overlay.value.grabbedByV4L
    requires HasBit(s.overlay.value.status, ClientVideoOn)
    requires s.blit.None? || s.blit.value.status == 0
    requires U32 - OffDelay <= now < U32
    ensures var a := StopOverlayVideo(s, false, now);
      var b := TimerCallback(a.screen, true, now);
      b.effects == [OverlayStop] && b.screen.overlay.value.status == FreeTimer
  {
    var a := StopOverlayVideo(s, false, now);
    DeadlineWrapsEarly(now, OffDelay);
    assert HasBit(a.screen.overlay.value.status, OffTimer) by {
      assert a.screen.overlay.value.status == 5;
    }
  }

  /** `NVAllocateOverlayMemory`: `size` counts pixels of `bpp` bytes. A
      block at least that large is reused; otherwise it is freed and a new
      one asked of the allocator, whose answer `granted` is an input. */
  function AllocateOverlayMemory(mem: Option<Alloc>, size: int, bpp: nat, granted: Option<Alloc>)
    : (r: (Option<Alloc>, seq<Effect>))
    requires granted.Some? ==> granted.value.size >= size * bpp
    ensures r.0.Some? ==> r.0.value.size >= size * bpp
    ensures mem.Some? && mem.value.size >= size * bpp ==> r.0 == mem && r.1 == []
    ensures !(mem.Some? && mem.value.size >= size * bpp) ==>
              r.0 == granted && r.1 == (if mem.Some? then [Freed(mem.value)] else [])
  {
    var bytes := size * bpp;
    if mem.Some? && mem.value.size >= bytes then (mem, [])
    else (granted, if mem.Some? then [Freed(mem.value)] else [])
  }

  /** Memory is kept exactly when it is large enough; a block is never
      freed and then returned. */
  lemma OverlayMemoryReuse(mem: Option<Alloc>, size: int, bpp: nat, granted: Option<Alloc>)
    requires granted.Some? ==> granted.value.size >= size * bpp
    requires mem.Some? && granted.Some? ==> granted.value != mem.value
    ensures var r := AllocateOverlayMemory(mem, size, bpp, granted);
      (r.0 == mem && mem.Some? <==> mem.Some? && mem.value.size >= size * bpp) &&
      (forall e :: e in r.1 ==> e.Freed? && r.0 != Some(e.block))
  {
  }
}
