/** The NV04-family 2D acceleration hooks: solid fills, screen-to-screen
    copies and image-from-CPU uploads, written as packets into the command
    channel, plus the state each operation arms so that a flush of the
    channel in the middle of an operation can replay its setup. */
module Nv04Exa {
  import opened CArith
  import opened Hw
  import opened MemCopy

  /** X11 raster operation `GXcopy`. */
  const GXcopy: int := 3
  /** Operation words of the rectangle, blit and IFC objects. */
  const OpRopAnd: int := 1
  const OpSrcCopy: int := 3
  /** 2D surface formats of the surfaces object. */
  const Surf2dA8R8G8B8: int := 0x0A
  const Surf2dY32: int := 0x0B
  /** Colour format of the GDI rectangle object. */
  const RectColorA8R8G8B8: int := 3
  /** The largest IFC line, in words, the upload path pushes in one packet. */
  const MaxPushWords: int := 1792
  /** The clip rectangle set before an upload: origin, then `0x7FFF` by `0x7FFF`. */
  const ClipAll: int := 0x7FFF_7FFF

  // ---------------------------------------------------------------------
  // Planemask

  /** `planemask |= ~0 << bpp` on a 32-bit word: every bit at or above
      `bpp` is set and the low `bpp` bits are kept. At 32 bits per pixel the
      C shift is by the full width of `int`, which C leaves undefined; the
      model reads it as adding no bits, so the planemask is kept as given.
      x86 masks the count to 0 instead (`MaskedShiftFillsAll`). */
  function ExtendPlanemask(pm: int, bpp: nat): (r: int)
    requires IsWord(pm)
    ensures IsWord(r)
    ensures bpp >= 32 ==> r == pm
    ensures bpp < 32 ==> r % Pow2(bpp) == pm % Pow2(bpp)
    ensures bpp < 32 ==> r / Pow2(bpp) == Pow2(32 - bpp) - 1
  {
    if bpp >= 32 then pm
    else
      var p := Pow2(bpp);
      var m := pm % p;
      WordSplit(bpp);
      DivUnique(m + (U32 - p), p, Pow2(32 - bpp) - 1);
      m + (U32 - p)
  }

  /** A word is `2^(32-bpp)` blocks of `2^bpp`. */
  lemma WordSplit(bpp: nat)
    requires bpp < 32
    ensures U32 == Pow2(bpp) * Pow2(32 - bpp)
    ensures U32 - Pow2(bpp) == (Pow2(32 - bpp) - 1) * Pow2(bpp)
  {
    Pow2Of32();
    Pow2Add(bpp, 32 - bpp);
  }

  /** The extended planemask is `~0` exactly when every pixel bit of the
      caller's planemask is set; for 32 bits per pixel it is `~0` only when
      the caller's planemask already was. */
  lemma ExtendedIsFull(pm: int, bpp: nat)
    requires IsWord(pm)
    ensures bpp < 32 ==> (ExtendPlanemask(pm, bpp) == AllOnes <==> pm % Pow2(bpp) == Pow2(bpp) - 1)
    ensures bpp >= 32 ==> (ExtendPlanemask(pm, bpp) == AllOnes <==> pm == AllOnes)
  {
    if bpp < 32 {
      WordSplit(bpp);
      DivBounds(pm, Pow2(bpp));
    }
  }

  /** Under the x86 reading of the shift at 32 bits per pixel, the count
      masked to 0, every planemask becomes `~0`, so a 32-bit fill or copy
      with `GXcopy` would always take the SRCCOPY branch. */
  lemma MaskedShiftFillsAll(pm: int)
    requires IsWord(pm)
    ensures ExtendPlanemask(pm, 32 % 32) == AllOnes
  {
    assert Pow2(0) == 1;
  }

  /** Extending an extended planemask changes nothing, so replaying an
      operation with the stored planemask takes the same branch. */
  lemma ExtendIdempotent(pm: int, bpp: nat)
    requires IsWord(pm)
    ensures ExtendPlanemask(ExtendPlanemask(pm, bpp), bpp) == ExtendPlanemask(pm, bpp)
  {
  }

  // ---------------------------------------------------------------------
  // 16-bit colour widening

  /** The fields of an R5G6B5 pixel: blue `fg & 0x1F`, green
      `(fg & 0x7E0) >> 5` and red `(fg & 0xF800) >> 11`. The code calls the
      blue field `r` and the red one `b`, and puts each in the matching
      byte, so the names are swapped but the colour is not. */
  function Blue5(fg: nat): nat { fg % 32 }
  function Green6(fg: nat): nat { (fg / 32) % 64 }
  function Red5(fg: nat): nat { (fg / 2048) % 32 }

  /** The red field as the code extracts it, `(fg & 0xF100) >> 11`: the
      mask keeps bit 8, which the shift drops,
      and misses bit 11, so the result is bits 12..15 moved to bits 1..4. */
  function Red5AsWritten(fg: nat): nat { 2 * ((fg / 4096) % 16) }

  /** `v * 255 / max` on unsigned operands: a field widened to 8 bits. */
  function Widen(v: nat, max: nat): (b: nat)
    requires 0 < max && v <= max
    ensures b <= 255
  {
    DivBounds(v * 255, max);
    MulLe(v, max, 255);
    v * 255 / max
  }

  /** `b << 16 | g << 8 | r` in the code's names: red, green and blue
      bytes, red highest. */
  function Rgb(r: nat, g: nat, b: nat): (c: nat)
    requires r <= 255 && g <= 255 && b <= 255
    ensures c < 0x100_0000
    ensures c / 0x1_0000 == r && (c / 0x100) % 0x100 == g && c % 0x100 == b
  {
    var c := r * 0x1_0000 + g * 0x100 + b;
    DivUnique(c, 0x1_0000, r);
    DivUnique(c, 0x100, r * 0x100 + g);
    DivUnique(r * 0x100 + g, 0x100, r);
    c
  }

  /** The 32-bit colour a 16-bit fill colour is widened to before it is
      handed to the rectangle object, with the red field at bits 11..15. */
  function Expand565(fg: nat): (c: nat)
    ensures c < 0x100_0000
  {
    Rgb(Widen(Red5(fg), 31), Widen(Green6(fg), 63), Widen(Blue5(fg), 31))
  }

  /** The widening with the red mask `0xF100`. */
  function Expand565AsWritten(fg: nat): (c: nat)
    ensures c < 0x100_0000
  {
    Rgb(Widen(Red5AsWritten(fg), 31), Widen(Green6(fg), 63), Widen(Blue5(fg), 31))
  }

  /** The R5G6B5 pixel a 32-bit colour lands as on a 16-bit surface: the top
      bits of each channel. */
  function Reduce565(c: nat): nat
  {
    ((c / 0x1_0000) % 0x100 / 8) * 2048 + ((c / 0x100) % 0x100 / 4) * 32 + (c % 0x100) / 8
  }

  /** Widening a 5-bit field and keeping its top 5 bits gives the field. */
  lemma Widen5Back(v: nat)
    requires v <= 31
    ensures Widen(v, 31) / 8 == v
  {
    DivDiv(v * 255, 31, 8);
    DivUnique(v * 255, 248, v);
  }

  /** Widening a 6-bit field and keeping its top 6 bits gives the field. */
  lemma Widen6Back(v: nat)
    requires v <= 63
    ensures Widen(v, 63) / 4 == v
  {
    DivDiv(v * 255, 63, 4);
    DivUnique(v * 255, 252, v);
  }

  lemma DivDiv(x: nat, a: nat, r: nat)
    requires a > 0 && r > 0
    ensures x / a / r == x / (a * r)
  {
    var q := x / a;
    var q2 := q / r;
    DivBounds(x, a);
    DivBounds(q, r);
    assert q2 * (a * r) <= x by {
      assert q2 * r * a <= q * a;
    }
    assert x < q2 * (a * r) + a * r by {
      assert q < q2 * r + r;
      assert q + 1 <= q2 * r + r;
      MulLe(q + 1, q2 * r + r, a);
    }
    DivUnique(x, a * r, q2);
  }

  /** A 16-bit pixel is the sum of its three fields. */
  lemma Split565(fg: nat)
    requires fg < U16
    ensures fg == Red5(fg) * 2048 + Green6(fg) * 32 + Blue5(fg)
  {
    DivBounds(fg, 32);
    DivBounds(fg / 32, 64);
    DivDiv(fg, 32, 64);
    DivBounds(fg, 2048);
    DivUnique(fg / 2048, 32, 0);
  }

  /** Keeping the top bits of each channel of `Rgb(r, g, b)`. */
  lemma ReduceRgb(r: nat, g: nat, b: nat)
    requires r <= 255 && g <= 255 && b <= 255
    ensures Reduce565(Rgb(r, g, b)) == (r / 8) * 2048 + (g / 4) * 32 + b / 8
  {
    var c := Rgb(r, g, b);
    assert c / 0x1_0000 == r;
    DivUnique(r, 0x100, 0);
  }

  /** Filling a 16-bit surface with the widened colour stores the caller's
      pixel unchanged. */
  lemma Expand565RoundTrip(fg: nat)
    requires fg < U16
    ensures Reduce565(Expand565(fg)) == fg
  {
    var r := Widen(Red5(fg), 31);
    var g := Widen(Green6(fg), 63);
    var b := Widen(Blue5(fg), 31);
    ReduceRgb(r, g, b);
    Widen5Back(Red5(fg));
    Widen6Back(Green6(fg));
    Widen5Back(Blue5(fg));
    Split565(fg);
  }

  /** With the mask as written, the lowest red bit is lost: pure dark red
      fills as black. */
  lemma Expand565AsWrittenLosesRed(fg: nat)
    requires fg == 0x0800
    ensures Reduce565(Expand565AsWritten(fg)) == 0 != fg
  {
    DarkRedFields(fg);
    BlackExpands(fg);
    BlackReduces(Expand565AsWritten(fg));
  }

  lemma BlackReduces(c: nat)
    requires c == 0
    ensures Reduce565(c) == 0
  {
  }

  /** Dark red keeps no bit under the mask as written. */
  lemma DarkRedFields(fg: nat)
    requires fg == 0x0800
    ensures Red5AsWritten(fg) == 0 && Green6(fg) == 0 && Blue5(fg) == 0
  {
  }

  /** A pixel whose fields all read as zero widens to black. */
  lemma BlackExpands(fg: nat)
    requires Red5AsWritten(fg) == 0 && Green6(fg) == 0 && Blue5(fg) == 0
    ensures Expand565AsWritten(fg) == 0
  {
    WidenValue(0, 31, 0);
    WidenValue(0, 63, 0);
  }

  /** As written, white fills with red 0xF6, which lands on a 16-bit surface
      as red 30 instead of 31. */
  lemma Expand565AsWrittenWhite()
    ensures Expand565AsWritten(0xFFFF) == 0xF6FFFF
    ensures Reduce565(Expand565AsWritten(0xFFFF)) == 0xF7FF
  {
    assert Red5AsWritten(0xFFFF) == 30 && Green6(0xFFFF) == 63 && Blue5(0xFFFF) == 31;
    WidenValue(30, 31, 246);
    WidenValue(63, 63, 255);
    WidenValue(31, 31, 255);
    ReduceRgb(246, 255, 255);
  }

  /** As written, a 16-bit colour lands on a 16-bit surface with bit 11,
      the lowest red bit, cleared and every other bit kept. */
  lemma Expand565AsWrittenReduces(fg: nat)
    requires fg < U16
    ensures Reduce565(Expand565AsWritten(fg)) == fg - ((fg / 2048) % 2) * 2048
  {
    var r5 := Red5AsWritten(fg);
    var g6 := Green6(fg);
    var b5 := Blue5(fg);
    ReduceRgb(Widen(r5, 31), Widen(g6, 63), Widen(b5, 31));
    Widen5Back(r5);
    Widen6Back(g6);
    Widen5Back(b5);
    Split565(fg);
    RedBits(fg);
  }

  /** The red field is the field the mask `0xF100` keeps plus bit 11. */
  lemma RedBits(fg: nat)
    requires fg < U16
    ensures Red5(fg) == Red5AsWritten(fg) + (fg / 2048) % 2
  {
    var q := fg / 2048;
    DivBounds(fg, 2048);
    DivUnique(q, 32, 0);
    DivDiv(fg, 2048, 2);
    DivBounds(q, 2);
    DivUnique(q / 2, 16, 0);
  }

  lemma WidenValue(v: nat, max: nat, w: nat)
    requires 0 < max && v <= max
    requires w * max <= v * 255 < w * max + max
    ensures Widen(v, max) == w
  {
    DivUnique(v * 255, max, w);
  }

  /** As written, bit 11 of the colour never reaches the result. */
  lemma Expand565AsWrittenIgnoresBit11(fg: nat)
    requires fg < U16 && (fg / 2048) % 2 == 0
    ensures Expand565AsWritten(fg + 2048) == Expand565AsWritten(fg)
  {
    DivBounds(fg, 4096);
    DivBounds(fg, 2048);
    var q := fg / 4096;
    DivUnique(fg + 2048, 4096, q);
    DivUnique(fg + 2048, 32, fg / 32 + 64);
    DivUnique(fg / 32 + 64, 64, fg / 32 / 64 + 1);
  }

  // ---------------------------------------------------------------------
  // Driver state

  /** The operands the driver keeps in `NVRec` for the flush handlers:
      destination and source pixmaps, ROP, planemask, fill colour and the
      IFC point, output size and input size. */
  datatype Operands = Operands(
    pdpix: Pixmap, pspix: Pixmap, alu: int, planemask: int, fg: int,
    pointX: int, pointY: int, widthIn: int, widthOut: int, heightIn: int, heightOut: int)

  /** The channel, the ROP cached in the hardware (`currentRop`, 32 above
      the ROP when a planemask pattern is in use) and the stored operands. */
  datatype Nv04 = Nv04(ch: Channel, currentRop: int, ops: Operands)
  {
    /** What the driver keeps true between calls: the stored operands are
        ones the armed handler can replay. */
    predicate Valid()
    {
      ch.Valid() && 0 <= ops.alu < 16 && IsWord(ops.planemask) && IsWord(ops.fg)
      && Addressable(ops.pdpix) && Addressable(ops.pspix)
      && ((ch.notify.SolidResubmit? || ch.notify.CopyResubmit?) ==>
            ops.planemask == ExtendPlanemask(ops.planemask, ops.pdpix.bpp))
      && (ch.notify.IfcResubmit? ==> IfcArmed(ops))
    }
  }

  /** The pitch fits the 16-bit pitch fields of the surfaces object. */
  predicate Addressable(p: Pixmap) { p.pitch < U16 }

  /** The IFC operands fit the 16-bit low fields of the IFC point packet. */
  predicate IfcArmed(o: Operands)
  {
    o.pdpix.surfFormat.Some? && 0 <= o.pointX < U16 && 0 <= o.widthOut < U16 && 0 <= o.widthIn < U16
  }

  /** `r` only appended packets to what `st` had written. */
  predicate Extends(st: Nv04, r: Nv04)
  {
    |st.ch.packets| <= |r.ch.packets| && r.ch.packets[..|st.ch.packets|] == st.ch.packets
  }

  /** The packets written between `st` and `r`. */
  function Emitted(st: Nv04, r: Nv04): seq<Packet>
    requires Extends(st, r)
  {
    r.ch.packets[|st.ch.packets|..]
  }

  /** What a setup routine decided: whether it accepted, the ROP cached
      afterwards and the packets it wrote (in order). */
  datatype Writes = Writes(ok: bool, rop: int, packets: seq<Packet>)

  /** The result of a `Prepare*` or upload hook: its return value and the
      state after it. */
  datatype Prepared = Prepared(ok: bool, st: Nv04)

  function PatternPacket(clr0: int, clr1: int): Packet
  {
    Packet(ImagePattern, PatternColor0, Words([clr0, clr1, AllOnes, AllOnes]))
  }

  function RopPacket(alu: int, masked: bool): Packet
  {
    Packet(Rop, RopRop, [RopWord(alu, masked)])
  }

  /** The value `currentRop` caches for a ROP and an extended planemask. */
  function RopTarget(alu: int, pm: int): int
  {
    if pm != AllOnes then alu + 32 else alu
  }

  /** `NV04EXASetROP`, given the cached ROP. With a partial planemask the
      pattern is loaded with the planemask every time; the ROP word is sent
      only when the cache says the hardware holds a different one; going
      back to a full planemask first restores the all-ones pattern. */
  function SetRop(cur: int, alu: int, pm: int): (w: Writes)
    requires 0 <= alu < 16
    ensures w.ok && w.rop == RopTarget(alu, pm)
    ensures cur == RopTarget(alu, pm) ==>
      w.packets == (if pm != AllOnes then [PatternPacket(0, pm)] else [])
    ensures cur != RopTarget(alu, pm) ==>
      |w.packets| >= 1 && w.packets[|w.packets| - 1] == RopPacket(alu, pm != AllOnes)
    ensures pm != AllOnes ==> |w.packets| >= 1 && w.packets[0] == PatternPacket(0, pm)
    ensures pm == AllOnes && cur != alu && cur >= 16 ==>
      |w.packets| == 2 && w.packets[0] == PatternPacket(AllOnes, AllOnes)
  {
    if pm != AllOnes then
      var pat := [PatternPacket(0, pm)];
      if cur != alu + 32 then Writes(true, alu + 32, pat + [RopPacket(alu, true)])
      else Writes(true, cur, pat)
    else if cur != alu then
      var pat := if cur >= 16 then [PatternPacket(AllOnes, AllOnes)] else [];
      Writes(true, alu, pat + [RopPacket(alu, false)])
    else Writes(true, cur, [])
  }

  /** A second `SetROP` with the same arguments sends no ROP word: only the
      planemask pattern, when there is one. */
  lemma SetRopCached(cur: int, alu: int, pm: int)
    requires 0 <= alu < 16
    ensures SetRop(SetRop(cur, alu, pm).rop, alu, pm).packets
         == (if pm != AllOnes then [PatternPacket(0, pm)] else [])
  {
  }

  /** The operation is a plain source copy: no ROP and no planemask. */
  predicate Plain(alu: int, pm: int) { pm == AllOnes && alu == GXcopy }

  /** The `OPERATION` packet of the rectangle or blit object, followed by
      the ROP setup when the operation is not a plain copy. */
  function OperationSetup(cur: int, obj: Obj, mthd: Mthd, alu: int, pm: int): (w: Writes)
    requires 0 <= alu < 16
    ensures w.ok && |w.packets| >= 1
    ensures w.packets[0] == Packet(obj, mthd, Words([if Plain(alu, pm) then OpSrcCopy else OpRopAnd]))
    ensures w.rop == (if Plain(alu, pm) then cur else RopTarget(alu, pm))
  {
    if Plain(alu, pm) then Writes(true, cur, [Packet(obj, mthd, Words([OpSrcCopy]))])
    else
      var rop := SetRop(cur, alu, pm);
      Writes(true, rop.rop, [Packet(obj, mthd, Words([OpRopAnd]))] + rop.packets)
  }

  /** `OUT_PIXMAPl(chan, pix, 0, VRAM | RD or WR)`. */
  function PixReloc(p: Pixmap, write: bool): Arg
  {
    Reloc(PixmapBo(p.bo), 0, Low, write)
  }

  /** The surface format the fill programs: `A8R8G8B8` is replaced by `Y32`,
      for which the rectangle object does not force the alpha channel. */
  function SolidFormat(fmt: int): (f: int)
    ensures f != Surf2dA8R8G8B8
    ensures fmt != Surf2dA8R8G8B8 ==> f == fmt
  {
    if fmt == Surf2dA8R8G8B8 then Surf2dY32 else fmt
  }

  /** The fill colour handed to the rectangle object. A 16-bit colour is
      widened with the red mask `0xF100`, so the pixel that lands on the
      surface is the caller's with bit 11 cleared; any other colour is
      handed on as it is. */
  function SolidColor(bpp: nat, fg: int): (c: int)
    requires IsWord(fg)
    ensures IsWord(c)
    ensures bpp == 16 ==> c < 0x100_0000
    ensures bpp == 16 && fg < U16 ==> Reduce565(c) == fg - ((fg / 2048) % 2) * 2048
    ensures bpp != 16 ==> c == fg
  {
    if bpp == 16 then
      if fg < U16 then (Expand565AsWrittenReduces(fg); Expand565AsWritten(fg)) else Expand565AsWritten(fg)
    else fg
  }

  /** A fill or copy into `pix` needs no ROP object and its format. */
  predicate SolidAccepted(pix: Pixmap, alu: int, planemask: int)
    requires IsWord(planemask)
  {
    (Plain(alu, ExtendPlanemask(planemask, pix.bpp)) || pix.bpp != 32) && pix.surfFormat.Some?
  }

  /** What `NV04EXAPrepareSolid` writes, given the cached ROP. A ROP or a
      partial planemask on a 32-bit surface is refused before anything is
      written; a surface without a 2D format is refused after the operation
      packets. */
  function SolidSetup(cur: int, pix: Pixmap, alu: int, planemask: int, fg: int): (w: Writes)
    requires 0 <= alu < 16 && IsWord(planemask) && IsWord(fg) && Addressable(pix)
    ensures w.ok <==> SolidAccepted(pix, alu, planemask)
    ensures w.rop == cur || w.rop == RopTarget(alu, ExtendPlanemask(planemask, pix.bpp))
    ensures cur == RopTarget(alu, ExtendPlanemask(planemask, pix.bpp)) ==> w.rop == cur
    ensures !Plain(alu, ExtendPlanemask(planemask, pix.bpp)) && pix.bpp == 32 ==>
      w.packets == [] && w.rop == cur
    ensures w.ok ==> |w.packets| >= 4 && w.packets[|w.packets| - 3..] == [
      Packet(ContextSurfaces, Surf2dFormat,
        [Word(SolidFormat(pix.surfFormat.value)), Word(Pack16(pix.pitch, pix.pitch)),
         PixReloc(pix, true), PixReloc(pix, true)]),
      Packet(Rectangle, RectColorFormat, Words([RectColorA8R8G8B8])),
      Packet(Rectangle, RectColor1A, Words([SolidColor(pix.bpp, fg)]))]
  {
    var pm := ExtendPlanemask(planemask, pix.bpp);
    if !Plain(alu, pm) && pix.bpp == 32 then Writes(false, cur, [])
    else
      var op := OperationSetup(cur, Rectangle, RectOperation, alu, pm);
      if pix.surfFormat.None? then Writes(false, op.rop, op.packets)
      else
        Writes(true, op.rop, op.packets + [
          Packet(ContextSurfaces, Surf2dFormat,
            [Word(SolidFormat(pix.surfFormat.value)), Word(Pack16(pix.pitch, pix.pitch)),
             PixReloc(pix, true), PixReloc(pix, true)]),
          Packet(Rectangle, RectColorFormat, Words([RectColorA8R8G8B8])),
          Packet(Rectangle, RectColor1A, Words([SolidColor(pix.bpp, fg)]))])
  }

  /** `NV04EXAPrepareSolid`: on success the operands are stored and the
      solid-fill handler is armed; on failure neither changes. */
  function PrepareSolid(st: Nv04, pix: Pixmap, alu: int, planemask: int, fg: int): (r: Prepared)
    requires st.Valid() && 0 <= alu < 16 && IsWord(planemask) && IsWord(fg) && Addressable(pix)
    ensures r.st.Valid() && Extends(st, r.st)
    ensures r.ok <==> SolidAccepted(pix, alu, planemask)
    ensures r.st.ch.fired == st.ch.fired && r.st.ch.mark == st.ch.mark
    ensures r.ok ==> r.st.ch.notify == SolidResubmit
    ensures r.ok ==> r.st.ops == st.ops.(pdpix := pix, alu := alu,
                                         planemask := ExtendPlanemask(planemask, pix.bpp), fg := fg)
    ensures !r.ok ==> r.st.ch.notify == st.ch.notify && r.st.ops == st.ops
    ensures r.st.currentRop == SolidSetup(st.currentRop, pix, alu, planemask, fg).rop
    ensures r.st.ch.packets == st.ch.packets + SolidSetup(st.currentRop, pix, alu, planemask, fg).packets
  {
    var w := SolidSetup(st.currentRop, pix, alu, planemask, fg);
    var ch := OutAll(st.ch, w.packets);
    if w.ok then
      var pm := ExtendPlanemask(planemask, pix.bpp);
      ExtendIdempotent(planemask, pix.bpp);
      Prepared(true, Nv04(ch.(notify := SolidResubmit), w.rop,
                          st.ops.(pdpix := pix, alu := alu, planemask := pm, fg := fg)))
    else Prepared(false, Nv04(ch, w.rop, st.ops))
  }

  /** The rectangle a rectangle `POINT` packet describes, as the hardware
      reads its two `(hi << 16) | lo` words. */
  datatype Rect = Rect(x: int, y: int, w: int, h: int)

  function RectOf(p: Packet): Option<Rect>
  {
    match WordValues(p.args)
    case Some(vs) =>
      if |vs| == 2 then Some(Rect(Hi16(vs[0]), Lo16(vs[0]), Hi16(vs[1]), Lo16(vs[1]))) else None
    case None => None
  }

  /** `FIRE_RING`: the channel is submitted and the armed handler writes its
      setup again at the start of the next buffer. */
  function Fire(st: Nv04): (r: Nv04)
    requires st.Valid()
    ensures r.Valid() && Extends(st, r)
    ensures r.ops == st.ops && r.ch.notify == st.ch.notify
    ensures r.ch.fired == st.ch.fired + 1 && r.ch.mark == st.ch.mark
  {
    Replay(st.(ch := Submit(st.ch)))
  }

  /** The armed `flush_notify` handler: the solid and copy handlers call
      their `Prepare*` hook again with the stored operands (the copy handler
      with a zero offset), the IFC handler writes the surface and point
      packets again. */
  function Replay(st: Nv04): (r: Nv04)
    requires st.Valid()
    ensures r.Valid() && Extends(st, r)
    ensures r.ops == st.ops && r.ch.notify == st.ch.notify
    ensures r.ch.fired == st.ch.fired && r.ch.mark == st.ch.mark
  {
    match st.ch.notify
    case NoNotify => st
    case SolidResubmit =>
      ExtendIdempotent(st.ops.planemask, st.ops.pdpix.bpp);
      PrepareSolid(st, st.ops.pdpix, st.ops.alu, st.ops.planemask, st.ops.fg).st
    case CopyResubmit =>
      ExtendIdempotent(st.ops.planemask, st.ops.pdpix.bpp);
      PrepareCopy(st, st.ops.pspix, st.ops.pdpix, 0, 0, st.ops.alu, st.ops.planemask).st
    case IfcResubmit =>
      st.(ch := OutAll(st.ch, IfcResubmitPackets(st.ops)))
  }

  /** `NV04EXASolid`: one unclipped rectangle, and a submission when it
      covers at least 512 pixels. The packet carries the rectangle's origin
      and size, the left edge and width truncated to 16 bits by the shift. */
  function Solid(st: Nv04, x1: int, y1: int, x2: int, y2: int): (r: Nv04)
    requires st.Valid() && 0 <= y1 < U16 && 0 <= y2 - y1 < U16
    ensures r.Valid() && Extends(st, r) && |r.ch.packets| > |st.ch.packets|
    ensures r.ops == st.ops && r.ch.notify == st.ch.notify
    ensures r.ch.fired == st.ch.fired + (if (x2 - x1) * (y2 - y1) >= 512 then 1 else 0)
    ensures RectOf(r.ch.packets[|st.ch.packets|]) == Some(Rect(x1 % U16, y1, (x2 - x1) % U16, y2 - y1))
  {
    var width := x2 - x1;
    var height := y2 - y1;
    var words := [Pack16(x1, y1), Pack16(width, height)];
    WordsRoundTrip(words);
    var s1 := st.(ch := OutWords(st.ch, Rectangle, RectPoint, words));
    if width * height >= 512 then Fire(s1) else s1
  }

  /** `NV04EXADoneSolid` and `NV04EXADoneCopy`: the handler is disarmed. */
  function Done(st: Nv04): (r: Nv04)
    requires st.Valid()
    ensures r.Valid() && r.ch.packets == st.ch.packets && r.ops == st.ops
    ensures r.ch.notify == NoNotify
  {
    st.(ch := st.ch.(notify := NoNotify))
  }

  /** Once disarmed, a submission writes nothing more. */
  lemma FireAfterDone(st: Nv04)
    requires st.Valid()
    ensures Fire(Done(st)).ch.packets == st.ch.packets
  {
  }

  /** A copy from `src` to `dst` is accepted: equal depths, no ROP on a
      32-bit destination, and a 2D format for the destination. */
  predicate CopyAccepted(src: Pixmap, dst: Pixmap, alu: int, planemask: int)
    requires IsWord(planemask)
  {
    src.bpp == dst.bpp && SolidAccepted(dst, alu, planemask)
  }

  /** What `NV04EXAPrepareCopy` writes, given the cached ROP: the blit
      operation and ROP, then the surfaces object with both pitches and both
      pixmaps (the source read, the destination written). */
  function CopySetup(cur: int, src: Pixmap, dst: Pixmap, alu: int, planemask: int): (w: Writes)
    requires 0 <= alu < 16 && IsWord(planemask) && Addressable(src)
    ensures w.ok <==> CopyAccepted(src, dst, alu, planemask)
    ensures w.rop == cur || w.rop == RopTarget(alu, ExtendPlanemask(planemask, dst.bpp))
    ensures cur == RopTarget(alu, ExtendPlanemask(planemask, dst.bpp)) ==> w.rop == cur
    ensures src.bpp != dst.bpp ==> w.packets == [] && w.rop == cur
    ensures w.ok ==> |w.packets| >= 2
    ensures w.ok ==> w.packets[|w.packets| - 1] == Packet(ContextSurfaces, Surf2dFormat,
      [Word(dst.surfFormat.value), Word(Pack16(dst.pitch, src.pitch)),
       PixReloc(src, false), PixReloc(dst, true)])
  {
    if src.bpp != dst.bpp then Writes(false, cur, [])
    else
      var pm := ExtendPlanemask(planemask, dst.bpp);
      if !Plain(alu, pm) && dst.bpp == 32 then Writes(false, cur, [])
      else
        var op := OperationSetup(cur, ImageBlit, BlitOperation, alu, pm);
        if dst.surfFormat.None? then Writes(false, op.rop, op.packets)
        else
          Writes(true, op.rop, op.packets + [
            Packet(ContextSurfaces, Surf2dFormat,
              [Word(dst.surfFormat.value), Word(Pack16(dst.pitch, src.pitch)),
               PixReloc(src, false), PixReloc(dst, true)])])
  }

  /** `NV04EXAPrepareCopy`. The offsets `dx` and `dy` are not used. */
  function PrepareCopy(st: Nv04, src: Pixmap, dst: Pixmap, dx: int, dy: int,
                       alu: int, planemask: int): (r: Prepared)
    requires st.Valid() && 0 <= alu < 16 && IsWord(planemask)
    requires Addressable(src) && Addressable(dst)
    ensures r.st.Valid() && Extends(st, r.st)
    ensures r.ok <==> CopyAccepted(src, dst, alu, planemask)
    ensures r.st.ch.fired == st.ch.fired && r.st.ch.mark == st.ch.mark
    ensures r.ok ==> r.st.ch.notify == CopyResubmit
    ensures r.ok ==> r.st.ops == st.ops.(pspix := src, pdpix := dst, alu := alu,
                                         planemask := ExtendPlanemask(planemask, dst.bpp))
    ensures !r.ok ==> r.st.ch.notify == st.ch.notify && r.st.ops == st.ops
    ensures r.st.currentRop == CopySetup(st.currentRop, src, dst, alu, planemask).rop
    ensures r.st.ch.packets == st.ch.packets + CopySetup(st.currentRop, src, dst, alu, planemask).packets
  {
    var w := CopySetup(st.currentRop, src, dst, alu, planemask);
    var ch := OutAll(st.ch, w.packets);
    if w.ok then
      var pm := ExtendPlanemask(planemask, dst.bpp);
      ExtendIdempotent(planemask, dst.bpp);
      Prepared(true, Nv04(ch.(notify := CopyResubmit), w.rop,
                          st.ops.(pspix := src, pdpix := dst, alu := alu, planemask := pm)))
    else Prepared(false, Nv04(ch, w.rop, st.ops))
  }

  /** The blit a `POINT_IN` packet describes, as the hardware reads its
      three `(hi << 16) | lo` words. */
  datatype Blit = Blit(srcX: int, srcY: int, dstX: int, dstY: int, w: int, h: int)

  function BlitOf(p: Packet): Option<Blit>
  {
    match WordValues(p.args)
    case Some(vs) =>
      if |vs| == 3 then
        Some(Blit(Lo16(vs[0]), Hi16(vs[0]), Lo16(vs[1]), Hi16(vs[1]), Lo16(vs[2]), Hi16(vs[2])))
      else None
    case None => None
  }

  /** `NV04EXACopy`: one blit, and a submission when it covers at least 512
      pixels. Rows (`y`, height) sit in the high halves and are truncated
      to 16 bits by the shift. */
  function Copy(st: Nv04, srcX: int, srcY: int, dstX: int, dstY: int, w: int, h: int): (r: Nv04)
    requires st.Valid() && 0 <= srcX < U16 && 0 <= dstX < U16 && 0 <= w < U16
    ensures r.Valid() && Extends(st, r) && |r.ch.packets| > |st.ch.packets|
    ensures r.ops == st.ops && r.ch.notify == st.ch.notify
    ensures r.ch.fired == st.ch.fired + (if w * h >= 512 then 1 else 0)
    ensures BlitOf(r.ch.packets[|st.ch.packets|]) ==
      Some(Blit(srcX, srcY % U16, dstX, dstY % U16, w, h % U16))
  {
    var words := [Pack16(srcY, srcX), Pack16(dstY, dstX), Pack16(h, w)];
    WordsRoundTrip(words);
    var s1 := st.(ch := OutWords(st.ch, ImageBlit, BlitPointIn, words));
    if w * h >= 512 then Fire(s1) else s1
  }

  /** Where an IFC upload draws: the destination point and the output and
      input sizes, as the hardware reads the `POINT` packet. */
  datatype IfcPlacement = IfcPlacement(x: int, y: int, wOut: int, hOut: int, wIn: int, hIn: int)

  function IfcPlacementOf(p: Packet): Option<IfcPlacement>
  {
    match WordValues(p.args)
    case Some(vs) =>
      if |vs| == 3 then
        Some(IfcPlacement(Lo16(vs[0]), Hi16(vs[0]), Lo16(vs[1]), Hi16(vs[1]), Lo16(vs[2]), Hi16(vs[2])))
      else None
    case None => None
  }

  /** The packet places an upload as `pl` describes. */
  predicate PlacedAt(p: Packet, pl: IfcPlacement)
  {
    IfcPlacementOf(p) == Some(pl)
  }

  /** What `NV04EXAStateIFCResubmit` writes: the destination surface, then
      the stored point and sizes. */
  function IfcResubmitPackets(o: Operands): (pk: seq<Packet>)
    requires IfcArmed(o) && Addressable(o.pdpix)
    ensures |pk| == 2
    ensures pk[0] == Packet(ContextSurfaces, Surf2dFormat,
      [Word(o.pdpix.surfFormat.value), Word(Pack16(o.pdpix.pitch, o.pdpix.pitch)),
       PixReloc(o.pdpix, true), PixReloc(o.pdpix, true)])
    ensures pk[1].obj == ImageFromCpu && pk[1].mthd == IfcPoint
    ensures PlacedAt(pk[1], IfcPlacement(o.pointX, o.pointY % U16, o.widthOut,
                                         o.heightOut % U16, o.widthIn, o.heightIn % U16))
  {
    var words := [Pack16(o.pointY, o.pointX), Pack16(o.heightOut, o.widthOut),
                  Pack16(o.heightIn, o.widthIn)];
    WordsRoundTrip(words);
    [Packet(ContextSurfaces, Surf2dFormat,
       [Word(o.pdpix.surfFormat.value), Word(Pack16(o.pdpix.pitch, o.pdpix.pitch)),
        PixReloc(o.pdpix, true), PixReloc(o.pdpix, true)]),
     Packet(ImageFromCpu, IfcPoint, Words(words))]
  }

  /** After the first submission every further submission writes the same
      packets: the replay leaves the ROP cache where it found it. */
  lemma FlushReplaysSame(st: Nv04)
    requires st.Valid()
    ensures Emitted(Fire(Fire(st)), Fire(Fire(Fire(st)))) == Emitted(Fire(st), Fire(Fire(st)))
  {
    var s1 := Fire(st);
    var s2 := Fire(s1);
    var s3 := Fire(s2);
    assert s2.currentRop == s1.currentRop;
  }

  /** A submission in the middle of a fill writes the fill's surface,
      colour format and colour again, so the fill carries on as prepared. */
  lemma SolidReplayRestoresSetup(st: Nv04, pix: Pixmap, alu: int, planemask: int, fg: int)
    requires st.Valid() && 0 <= alu < 16 && IsWord(planemask) && IsWord(fg) && Addressable(pix)
    requires PrepareSolid(st, pix, alu, planemask, fg).ok
    ensures var s1 := PrepareSolid(st, pix, alu, planemask, fg).st;
            var e0 := Emitted(st, s1);
            var e1 := Emitted(s1, Fire(s1));
            |e1| >= 3 && e1[|e1| - 3..] == e0[|e0| - 3..]
  {
    var s1 := PrepareSolid(st, pix, alu, planemask, fg).st;
    var pm := ExtendPlanemask(planemask, pix.bpp);
    ExtendIdempotent(planemask, pix.bpp);
    assert SolidAccepted(pix, alu, pm);
    var w1 := SolidSetup(s1.currentRop, pix, alu, pm, fg);
    assert Emitted(s1, Fire(s1)) == w1.packets;
  }

  // ---------------------------------------------------------------------
  // Image from CPU

  /** `OUT_RINGp`: bytes pushed inline, four to a word. */
  function Push(b: seq<int>): (args: seq<Arg>)
    requires |b| % 4 == 0
    ensures |args| == |b| / 4
    decreases |b|
  {
    if b == [] then [] else [Bytes(b[..4])] + Push(b[4..])
  }

  /** The bytes a list of inline data words carries, or `None` when another
      kind of word is among them. */
  function Pushed(args: seq<Arg>): (r: Option<seq<int>>)
    ensures r.Some? ==> |r.value| == 4 * |args|
  {
    if args == [] then Some([])
    else if !args[0].Bytes? || |args[0].b| != 4 then None
    else match Pushed(args[1..])
      case None => None
      case Some(rest) => Some(args[0].b + rest)
  }

  /** The hardware reads back the bytes the CPU pushed. */
  lemma {:induction false} PushRoundTrip(b: seq<int>)
    requires |b| % 4 == 0
    ensures Pushed(Push(b)) == Some(b)
    decreases |b|
  {
    if b != [] {
      PushRoundTrip(b[4..]);
      assert Push(b)[1..] == Push(b[4..]);
      assert b[..4] + b[4..] == b;
    }
  }

  /** One `COLOR(0)` packet of inline pixel data. */
  function LinePacket(bytes: seq<int>): Packet
    requires |bytes| % 4 == 0
  {
    Packet(ImageFromCpu, IfcColor, Push(bytes))
  }

  /** The line layout of an upload of lines of `lineLen` bytes, `cpp`
      bytes a pixel: the line length, the line padded to 8 bytes, the
      padding, the words pushed per line and the padded width in pixels. */
  datatype IfcShape = IfcShape(lineLen: nat, padded: nat, padbytes: nat, id: nat, widthIn: nat)

  function Shape(w: int, cpp: int): (s: IfcShape)
    requires cpp == 2 || cpp == 4
    requires w * cpp >= 4
    ensures s.lineLen == w * cpp && ShapeOk(s)
    ensures cpp == 2 ==> s.padded == 2 * s.widthIn
    ensures cpp == 4 ==> s.padded == 4 * s.widthIn
  {
    var lineLen := w * cpp;
    EvenLine(w, cpp);
    var iw := AlignUp(lineLen, 8);
    DivUnique(iw, 2, iw / 8 * 4);
    DivBounds(iw, 8);
    var id := iw / 4;
    if cpp == 2 then
      DivUnique(iw, 2, (iw / 8) * 4);
      IfcShape(lineLen, iw, iw - lineLen, id, iw / 2)
    else
      DivUnique(iw, 4, (iw / 8) * 2);
      IfcShape(lineLen, iw, iw - lineLen, id, iw / 4)
  }

  /** The padded width holds the line: at least `w` pixels, and below 2^16
      when the line is pushed in one packet. */
  lemma WidthFits(w: int, cpp: int, s: IfcShape)
    requires (cpp == 2 || cpp == 4) && s.lineLen == w * cpp && ShapeOk(s)
    requires cpp == 2 ==> s.padded == 2 * s.widthIn
    requires cpp == 4 ==> s.padded == 4 * s.widthIn
    requires s.id <= MaxPushWords
    ensures 0 < w <= s.widthIn < U16
  {
    if cpp == 2 {
      MulTwo(w, cpp);
    } else {
      MulFour(w, cpp);
    }
  }

  /** A line of 2- or 4-byte pixels has an even length. */
  lemma EvenLine(w: int, cpp: int)
    requires cpp == 2 || cpp == 4
    ensures (w * cpp) % 2 == 0
  {
    if cpp == 2 {
      MulTwo(w, cpp);
      MultipleMod(w, 2);
    } else {
      MulFour(w, cpp);
      MultipleMod(2 * w, 2);
    }
  }

  /** The padding is 2 bytes exactly for 16-bit pixels and a width of 3
      modulo 4. */
  lemma TwoBytePadding(w: int, cpp: int)
    requires (cpp == 2 || cpp == 4) && w * cpp >= 4
    ensures Shape(w, cpp).padbytes == 2 <==> cpp == 2 && w % 4 == 3
  {
    var s := Shape(w, cpp);
    var q := s.padded / 8;
    DivBounds(s.padded, 8);
    if cpp == 2 {
      MulTwo(w, cpp);
      if s.padbytes == 2 {
        DivUnique(w, 4, q - 1);
      }
      if w % 4 == 3 {
        DivBounds(w, 4);
        assert q == w / 4 + 1;
      }
    } else {
      MulFour(w, cpp);
    }
  }

  lemma MulTwo(w: int, cpp: int)
    requires cpp == 2
    ensures w * cpp == 2 * w
  {
  }

  lemma MulFour(w: int, cpp: int)
    requires cpp == 4
    ensures w * cpp == 4 * w
  {
  }

  /** The relations between the fields of a line layout. */
  predicate ShapeOk(s: IfcShape)
  {
    s.padbytes <= 7 && s.padbytes % 2 == 0 && s.lineLen >= 4
    && s.lineLen + s.padbytes == s.padded == 4 * s.id && s.padded % 8 == 0
  }

  /** `(padbytes + 7) >> 2`: the words of the last line that go through the
      stack buffer when the line is padded. */
  function Aux(padbytes: nat): nat { (padbytes + 7) / 4 }

  /** A padded line has 2, 4 or 6 bytes of padding, 2, 2 or 3 of its words
      going through the stack buffer, and at least that many words. */
  lemma PaddingCases(s: IfcShape)
    requires ShapeOk(s) && s.padbytes > 0
    ensures s.padbytes == 2 || s.padbytes == 4 || s.padbytes == 6
    ensures Aux(s.padbytes) == (if s.padbytes == 6 then 3 else 2)
    ensures Aux(s.padbytes) <= s.id
  {
  }

  /** `if (padbytes) h--;`: the count the `while (h--)` loop starts from. */
  function LoopStart(h: int, padbytes: nat): int
  {
    if padbytes > 0 then h - 1 else h
  }

  /** The whole lines pushed straight from the source: all of them, or all
      but the last when the line is padded. */
  function FullLines(h: nat, padbytes: nat): (n: nat)
    requires h >= 1 || padbytes == 0
    ensures n <= h && (n == h <==> padbytes == 0)
  {
    LoopStart(h, padbytes)
  }

  /** How often `while (h--)` runs on a 32-bit `int` starting at `v`: the
      loop stops when `h` reads 0, so from a negative start `h` counts down
      through the whole 32-bit range, wrapping at the bottom, first. */
  function WhileRuns(v: int): (n: nat)
    requires -0x8000_0000 <= v < 0x8000_0000
    ensures n < U32 && n % U32 == v % U32
  {
    if v >= 0 then v else v + U32
  }

  /** An upload of no lines whose line is padded starts the loop from -1:
      it pushes 2^32 - 1 lines, reading far past the source. The upload
      entry points therefore demand a line when the line is padded. */
  lemma EmptyPaddedUploadRunsAway(w: int, cpp: int)
    requires (cpp == 2 || cpp == 4) && w * cpp >= 4 && Shape(w, cpp).padbytes > 0
    ensures LoopStart(0, Shape(w, cpp).padbytes) == -1
    ensures WhileRuns(LoopStart(0, Shape(w, cpp).padbytes)) == U32 - 1
  {
  }

  /** An upload is refused, before anything is written, on NV50 and later,
      above 1024 lines, below 4 bytes per line, for a pixel size other than
      2 or 4 bytes, for a destination without a 2D format, and for lines
      above 1792 words. */
  predicate IfcAccepted(arch: nat, dst: Pixmap, w: int, h: int, cpp: int)
  {
    arch < NvArch50 && h <= 1024 && w * cpp >= 4 && (cpp == 2 || cpp == 4)
    && dst.surfFormat.Some? && Shape(w, cpp).id <= MaxPushWords
  }

  /** The source holds every byte the upload reads: `4 * id` bytes for each
      whole line and the line itself for a padded last line. */
  predicate IfcReadable(size: nat, off: nat, pitch: nat, s: IfcShape, h: nat)
    requires h >= 1 || s.padbytes == 0
  {
    Fits(size, off, pitch, s.padded, FullLines(h, s.padbytes))
    && Fits(size, off, pitch, s.lineLen, h)
  }

  /** The first `n` packets of `pk` are the whole-line packets of `id`
      words, packet `i` read from row `i` at `off + i * pitch`. */
  predicate LinePackets(pk: seq<Packet>, src: seq<int>, off: nat, pitch: nat, id: nat, n: nat)
  {
    n <= |pk| && forall i :: 0 <= i < n ==> pk[i] == LinePacket(Row(src, off, pitch, i, 4 * id))
  }

  /** The whole lines of an upload, `n` packets of `id` words, line `i`
      read from `off + i * pitch`. */
  function IfcLines(src: seq<int>, off: nat, pitch: nat, id: nat, n: nat): (pk: seq<Packet>)
    requires Fits(|src|, off, pitch, 4 * id, n)
    ensures |pk| == n
    ensures LinePackets(pk, src, off, pitch, id, n)
    decreases n
  {
    if n == 0 then []
    else
      FitsTail(|src|, off, pitch, 4 * id, n);
      var rest := IfcLines(src, off + pitch, pitch, id, n - 1);
      IfcLinesShift(src, off, pitch, id, n, rest);
      [LinePacket(Row(src, off, pitch, 0, 4 * id))] + rest
  }

  lemma IfcLinesShift(src: seq<int>, off: nat, pitch: nat, id: nat, n: nat, rest: seq<Packet>)
    requires n >= 1 && |rest| == n - 1
    requires forall i :: 0 <= i < n - 1 ==> rest[i] == LinePacket(Row(src, off + pitch, pitch, i, 4 * id))
    ensures forall i :: 1 <= i < n ==>
      ([LinePacket(Row(src, off, pitch, 0, 4 * id))] + rest)[i] == LinePacket(Row(src, off, pitch, i, 4 * id))
  {
    forall i | 1 <= i < n
      ensures ([LinePacket(Row(src, off, pitch, 0, 4 * id))] + rest)[i]
              == LinePacket(Row(src, off, pitch, i, 4 * id))
    {
      RowStartStep(off, pitch, i - 1);
    }
  }

  /** The padded last line as the loop's epilogue means it: `id - aux`
      words straight from the source, then `aux` words from a stack buffer
      holding the rest of the line followed by whatever the buffer held
      (`pad`, big enough for three words). */
  function LastLine(src: seq<int>, start: nat, s: IfcShape, pad: seq<int>): (bytes: seq<int>)
    requires |pad| == 12 && ShapeOk(s) && s.padbytes > 0
    requires start + s.lineLen <= |src|
    ensures |bytes| == s.padded && |bytes| % 4 == 0
    ensures src[start..start + s.lineLen] <= bytes
  {
    PaddingCases(s);
    var aux := Aux(s.padbytes);
    var direct := src[start..start + 4 * (s.id - aux)];
    var buf := src[start + 4 * (s.id - aux)..start + s.lineLen] + pad[4 * aux - s.padbytes..4 * aux];
    assert direct + src[start + 4 * (s.id - aux)..start + s.lineLen] == src[start..start + s.lineLen];
    direct + buf
  }

  /** The padded last line as written: the copy into the 8-byte stack
      buffer takes `padbytes` bytes of the source where the rest of the line
      (`4 * aux - padbytes` bytes) was meant, and `aux` words are pushed from
      the buffer. `pad` is the buffer's contents followed by the 4 bytes
      beyond its end that a 3-word push reads. */
  function LastLineAsWritten(src: seq<int>, start: nat, s: IfcShape, pad: seq<int>): (bytes: seq<int>)
    requires |pad| == 12 && ShapeOk(s) && s.padbytes > 0
    requires start + s.lineLen <= |src|
    ensures |bytes| == s.padded
  {
    PaddingCases(s);
    var aux := Aux(s.padbytes);
    var direct := src[start..start + 4 * (s.id - aux)];
    var buf := src[start + 4 * (s.id - aux)..start + 4 * (s.id - aux) + s.padbytes]
               + pad[s.padbytes..4 * aux];
    direct + buf
  }

  /** The layout of a line of three 16-bit pixels: 6 bytes padded to 8. */
  lemma ShapeOfThreeShorts()
    ensures Shape(3, 2) == IfcShape(6, 8, 2, 2, 4)
  {
  }

  /** For a line of three 16-bit pixels the last line as written pushes the
      first pixel and then stack contents: pixels 1 and 2 never reach the
      hardware. */
  lemma LastLineAsWrittenLosesPixels()
    ensures var s := IfcShape(6, 8, 2, 2, 4);
            var src := [1, 2, 3, 4, 5, 6];
            var pad := [0, 0, 0, 0, 0, 0, 0, 0, 0, 0, 0, 0];
            Aux(s.padbytes) == 2
            && LastLineAsWritten(src, 0, s, pad) == [1, 2, 0, 0, 0, 0, 0, 0]
            && !(src <= LastLineAsWritten(src, 0, s, pad))
  {
    var s := IfcShape(6, 8, 2, 2, 4);
    var src := [1, 2, 3, 4, 5, 6];
    var pad := [0, 0, 0, 0, 0, 0, 0, 0, 0, 0, 0, 0];
    var out := LastLineAsWritten(src, 0, s, pad);
    assert out == src[0..0] + (src[0..2] + pad[2..8]);
    assert out[2] != src[2];
  }

  /** With 6 padding bytes the epilogue pushes three words, 12 bytes, from
      the 8-byte stack buffer: the last word pushed is the 4 stack bytes
      past its end, `pad[8..12]`. */
  lemma LastLineAsWrittenOverreads(src: seq<int>, start: nat, s: IfcShape, pad: seq<int>)
    requires |pad| == 12 && ShapeOk(s) && s.padbytes == 6
    requires start + s.lineLen <= |src|
    ensures 4 * Aux(s.padbytes) == 12
    ensures LastLineAsWritten(src, start, s, pad)[s.padded - 4..] == pad[8..12]
  {
    PaddingCases(s);
    var bytes := LastLineAsWritten(src, start, s, pad);
    var cut := start + 4 * (s.id - 3);
    var buf := src[cut..cut + 6] + pad[6..12];
    assert bytes == src[start..cut] + buf;
    assert |src[start..cut]| == s.padded - 12;
    assert bytes[s.padded - 4..] == buf[8..] == pad[8..12];
  }

  /** With 4 or 6 bytes of padding, `padbytes` is also the rest of the line,
      so the last line as written is the intended one; with 2 bytes of
      padding the last 4 bytes of the line are replaced by stack bytes. */
  lemma LastLineAsWrittenAgrees(src: seq<int>, start: nat, s: IfcShape, pad: seq<int>)
    requires |pad| == 12 && ShapeOk(s) && s.padbytes > 0
    requires start + s.lineLen <= |src|
    ensures s.padbytes != 2 ==> LastLineAsWritten(src, start, s, pad) == LastLine(src, start, s, pad)
    ensures s.padbytes == 2 ==>
      LastLineAsWritten(src, start, s, pad) == src[start..start + s.lineLen - 4] + pad[2..8]
  {
    PaddingCases(s);
    var d := start + 4 * (s.id - Aux(s.padbytes));
    if s.padbytes == 2 {
      assert src[start..d] + src[d..d + 2] == src[start..start + s.lineLen - 4];
      assert LastLineAsWritten(src, start, s, pad) == src[start..d] + (src[d..d + 2] + pad[2..8]);
    }
  }

  /** A line packet: `COLOR(0)` with `id` words whose bytes begin with `row`. */
  predicate LineDelivers(p: Packet, row: seq<int>, id: nat)
  {
    p.obj == ImageFromCpu && p.mthd == IfcColor && |p.args| == id
    && Pushed(p.args).Some? && row <= Pushed(p.args).value
  }

  /** Packet `i` of the line packets delivers source row `i`. */
  predicate LineDelivered(body: seq<Packet>, i: nat, src: seq<int>, off: nat, pitch: nat, len: nat, id: nat)
  {
    i < |body| && LineDelivers(body[i], Row(src, off, pitch, i, len), id)
  }

  /** The packets of an accepted upload of `h` lines laid out as `s`: the
      clip rectangle, the operation in format `ifcFmt`, the destination
      surface, the point and sizes, then one line packet per source row,
      pushed as `BodyAsWritten` describes. */
  predicate IfcPackets(e: seq<Packet>, src: seq<int>, srcOff: nat, srcPitch: nat,
                       x: int, y: int, w: int, h: nat, s: IfcShape, ifcFmt: int, pad: seq<int>)
    requires ShapeOk(s) && (h >= 1 || s.padbytes == 0) && |pad| == 12
  {
    |e| == 4 + h
    && e[..2] == [Packet(ClipRectangle, ClipPoint, Words([0, ClipAll])),
                  Packet(ImageFromCpu, IfcOperation, Words([OpSrcCopy, ifcFmt]))]
    && PlacedAt(e[3], IfcPlacement(x, y % U16, w, h, s.widthIn, h))
    && BodyAsWritten(e[4..], src, srcOff, srcPitch, s, h, pad)
  }

  /** The IFC operands an upload stores: the point, with `point_y` moved
      past the whole lines, both heights, the padded and the real width and
      the destination. */
  function StoredIfc(o: Operands, dst: Pixmap, x: int, y: int, w: int, h: nat, s: IfcShape): Operands
    requires h >= 1 || s.padbytes == 0
  {
    o.(pointX := x, pointY := y + FullLines(h, s.padbytes), heightIn := h, heightOut := h,
       widthIn := s.widthIn, widthOut := w, pdpix := dst)
  }

  /** `r` is `st` after an accepted upload: the operands are stored, the
      packets of `IfcPackets` were appended, the surface and placement
      among them being what the IFC flush handler writes for the operands
      as they stood before the first line, the handler is disarmed and the
      cached ROP is kept. */
  predicate IfcUploaded(st: Nv04, r: Nv04, src: seq<int>, srcOff: nat, srcPitch: nat, dst: Pixmap,
                        x: int, y: int, w: int, h: nat, s: IfcShape, ifcFmt: int, pad: seq<int>)
  {
    ShapeOk(s) && (h >= 1 || s.padbytes == 0) && |pad| == 12
    && r.Valid() && Extends(st, r) && r.ch.fired == st.ch.fired
    && r.ch.notify == NoNotify && r.currentRop == st.currentRop
    && r.ops == StoredIfc(st.ops, dst, x, y, w, h, s)
    && IfcArmed(r.ops) && Addressable(dst)
    && IfcPackets(Emitted(st, r), src, srcOff, srcPitch, x, y, w, h, s, ifcFmt, pad)
    && Emitted(st, r)[2..4] == IfcResubmitPackets(r.ops.(pointY := y))
  }

  /** `NV04EXAUploadIFC`: after the clip rectangle and the operation, the
      IFC state is stored and written (as its flush handler would), one
      packet of `id` words is pushed per source line, the handler is
      disarmed and `point_y` has moved past the whole lines. An upload of
      no lines whose line is padded never ends (`EmptyPaddedUploadRunsAway`)
      and is not allowed. */
  function UploadIfc(st: Nv04, arch: nat, src: seq<int>, srcOff: nat, srcPitch: nat, dst: Pixmap,
                     x: int, y: int, w: int, h: nat, cpp: int, pad: seq<int>): (r: Prepared)
    requires st.Valid() && Addressable(dst) && 0 <= x < U16 && |pad| == 12
    requires IfcAccepted(arch, dst, w, h, cpp) ==>
               (h >= 1 || Shape(w, cpp).padbytes == 0)
               && IfcReadable(|src|, srcOff, srcPitch, Shape(w, cpp), h)
    ensures r.ok <==> IfcAccepted(arch, dst, w, h, cpp)
    ensures !r.ok ==> r.st == st
    ensures r.st.Valid() && Extends(st, r.st) && r.st.ch.fired == st.ch.fired
    ensures r.ok ==> IfcUploaded(st, r.st, src, srcOff, srcPitch, dst, x, y, w, h, Shape(w, cpp),
                                 if cpp == 2 then 1 else 4, pad)
  {
    if !IfcAccepted(arch, dst, w, h, cpp) then Prepared(false, st)
    else
      var s := Shape(w, cpp);
      WidthFits(w, cpp, s);
      Prepared(true, UploadState(st, src, srcOff, srcPitch, dst, x, y, w, h, s,
                                 if cpp == 2 then 1 else 4, pad))
  }

  /** The state after an accepted upload of lines laid out as `s`. */
  function UploadState(st: Nv04, src: seq<int>, srcOff: nat, srcPitch: nat, dst: Pixmap,
                       x: int, y: int, w: int, h: nat, s: IfcShape, ifcFmt: int,
                       pad: seq<int>): (r: Nv04)
    requires st.Valid() && Addressable(dst) && dst.surfFormat.Some? && 0 <= x < U16
    requires h <= 1024 && (h >= 1 || s.padbytes == 0) && |pad| == 12
    requires ShapeOk(s) && 0 < w <= s.widthIn < U16
    requires IfcReadable(|src|, srcOff, srcPitch, s, h)
    ensures IfcUploaded(st, r, src, srcOff, srcPitch, dst, x, y, w, h, s, ifcFmt, pad)
  {
    var ops := st.ops.(pointX := x, pointY := y, heightIn := h, heightOut := h,
                       widthIn := s.widthIn, widthOut := w, pdpix := dst);
    var resub := IfcResubmitPackets(ops);
    assert IfcPlacement(ops.pointX, ops.pointY % U16, ops.widthOut, ops.heightOut % U16,
                        ops.widthIn, ops.heightIn % U16)
        == IfcPlacement(x, y % U16, w, h, s.widthIn, h) by {
      assert h % U16 == h;
    }
    var body := IfcBody(src, srcOff, srcPitch, s, h, pad);
    var e := UploadPackets(resub, body, src, srcOff, srcPitch, x, y, w, h, s, ifcFmt, pad);
    var r := Nv04(OutAll(st.ch, e).(notify := NoNotify), st.currentRop,
                  ops.(pointY := y + FullLines(h, s.padbytes)));
    UploadedFromParts(st, r, ops, e, src, srcOff, srcPitch, dst, x, y, w, h, s, ifcFmt, pad);
    r
  }

  /** The state `UploadState` builds from the stored operands `ops` and the
      packets `e` is an accepted upload. */
  lemma UploadedFromParts(st: Nv04, r: Nv04, ops: Operands, e: seq<Packet>,
                          src: seq<int>, srcOff: nat, srcPitch: nat, dst: Pixmap,
                          x: int, y: int, w: int, h: nat, s: IfcShape, ifcFmt: int, pad: seq<int>)
    requires st.Valid() && Addressable(dst)
    requires ShapeOk(s) && (h >= 1 || s.padbytes == 0) && |pad| == 12
    requires ops == st.ops.(pointX := x, pointY := y, heightIn := h, heightOut := h,
                            widthIn := s.widthIn, widthOut := w, pdpix := dst)
    requires IfcArmed(ops)
    requires IfcPackets(e, src, srcOff, srcPitch, x, y, w, h, s, ifcFmt, pad)
    requires e[2..4] == IfcResubmitPackets(ops)
    requires r == Nv04(OutAll(st.ch, e).(notify := NoNotify), st.currentRop,
                       ops.(pointY := y + FullLines(h, s.padbytes)))
    ensures IfcUploaded(st, r, src, srcOff, srcPitch, dst, x, y, w, h, s, ifcFmt, pad)
  {
    assert r.ch.packets[..|st.ch.packets|] == st.ch.packets;
    assert Emitted(st, r) == e;
    assert r.ops.(pointY := y) == ops;
  }

  /** The head packets followed by the line packets. */
  function UploadPackets(resub: seq<Packet>, body: seq<Packet>, src: seq<int>, srcOff: nat, srcPitch: nat,
                         x: int, y: int, w: int, h: nat, s: IfcShape, ifcFmt: int, pad: seq<int>): (e: seq<Packet>)
    requires ShapeOk(s) && (h >= 1 || s.padbytes == 0) && |pad| == 12
    requires |resub| == 2 && PlacedAt(resub[1], IfcPlacement(x, y % U16, w, h, s.widthIn, h))
    requires BodyAsWritten(body, src, srcOff, srcPitch, s, h, pad)
    ensures IfcPackets(e, src, srcOff, srcPitch, x, y, w, h, s, ifcFmt, pad)
    ensures e[2..4] == resub
  {
    var head := [Packet(ClipRectangle, ClipPoint, Words([0, ClipAll])),
                 Packet(ImageFromCpu, IfcOperation, Words([OpSrcCopy, ifcFmt]))] + resub;
    var e := head + body;
    assert e[4..] == body;
    assert e[3] == resub[1];
    assert e[2..4] == resub;
    e
  }

  /** The last line packet as the epilogue pushes it delivers its row,
      except with 2 bytes of padding, where it delivers all but the row's
      last 4 bytes and carries stack bytes `pad[2..6]` in their place. */
  predicate LastDelivered(p: Packet, row: seq<int>, s: IfcShape, pad: seq<int>)
    requires ShapeOk(s) && |pad| == 12
  {
    |row| == s.lineLen &&
    if s.padbytes == 2 then
      LineDelivers(p, row[..s.lineLen - 4], s.id)
      && Pushed(p.args).value[s.lineLen - 4..s.lineLen] == pad[2..6]
    else LineDelivers(p, row, s.id)
  }

  /** The line packets as the upload pushes them: packet `i` delivers
      source row `i` for every whole line, and the padded last line, when
      there is one, is delivered as `LastDelivered` says. */
  predicate BodyAsWritten(body: seq<Packet>, src: seq<int>, off: nat, pitch: nat, s: IfcShape, h: nat,
                          pad: seq<int>)
    requires ShapeOk(s) && (h >= 1 || s.padbytes == 0) && |pad| == 12
  {
    |body| == h
    && (forall i :: 0 <= i < FullLines(h, s.padbytes) ==> LineDelivered(body, i, src, off, pitch, s.lineLen, s.id))
    && (s.padbytes > 0 ==> LastDelivered(body[h - 1], Row(src, off, pitch, h - 1, s.lineLen), s, pad))
  }

  /** Unless the padding is 2 bytes, the upload as written delivers every
      row. */
  lemma BodyAsWrittenDeliversAll(body: seq<Packet>, src: seq<int>, off: nat, pitch: nat, s: IfcShape,
                                 h: nat, pad: seq<int>)
    requires ShapeOk(s) && (h >= 1 || s.padbytes == 0) && |pad| == 12
    requires BodyAsWritten(body, src, off, pitch, s, h, pad) && s.padbytes != 2
    ensures AllDelivered(body, src, off, pitch, s.lineLen, s.id, h)
  {
    if s.padbytes > 0 {
      DeliveredNext(body, src, off, pitch, s.lineLen, s.id, h - 1);
    }
  }

  /** The line packets of an accepted upload: the whole lines, then the
      padded last line, as the epilogue pushes it, when there is one. */
  function IfcBody(src: seq<int>, off: nat, pitch: nat, s: IfcShape, h: nat, pad: seq<int>): (body: seq<Packet>)
    requires ShapeOk(s) && (h >= 1 || s.padbytes == 0) && |pad| == 12
    requires IfcReadable(|src|, off, pitch, s, h)
    ensures BodyAsWritten(body, src, off, pitch, s, h, pad)
  {
    var n := FullLines(h, s.padbytes);
    var lines := IfcLines(src, off, pitch, s.id, n);
    if s.padbytes > 0 then
      RowFits(|src|, off, pitch, s.lineLen, h, n);
      var start := Offset(off, pitch, n);
      LastLineAsWrittenAgrees(src, start, s, pad);
      var last := LinePacket(LastLineAsWritten(src, start, s, pad));
      PaddedAsWritten(lines, last, src, off, pitch, s, n, h, pad, start);
      lines + [last]
    else
      LinesDelivered(lines, src, off, pitch, s.lineLen, s.id, n);
      lines
  }

  /** The line packets with the epilogue as evidently intended: the padded
      last line carries the whole of the row, so every row is delivered. */
  function IfcBodyIntended(src: seq<int>, off: nat, pitch: nat, s: IfcShape, h: nat, pad: seq<int>): (body: seq<Packet>)
    requires ShapeOk(s) && (h >= 1 || s.padbytes == 0) && |pad| == 12
    requires IfcReadable(|src|, off, pitch, s, h)
    ensures AllDelivered(body, src, off, pitch, s.lineLen, s.id, h)
  {
    var n := FullLines(h, s.padbytes);
    var lines := IfcLines(src, off, pitch, s.id, n);
    if s.padbytes > 0 then
      RowFits(|src|, off, pitch, s.lineLen, h, n);
      var last := LinePacket(LastLine(src, Offset(off, pitch, n), s, pad));
      PaddedDelivered(lines, last, src, off, pitch, s, n, h, pad);
      lines + [last]
    else
      LinesDelivered(lines, src, off, pitch, s.lineLen, s.id, n);
      lines
  }

  lemma PaddedAsWritten(lines: seq<Packet>, last: Packet, src: seq<int>, off: nat, pitch: nat,
                        s: IfcShape, n: nat, h: nat, pad: seq<int>, start: nat)
    requires ShapeOk(s) && s.padbytes > 0 && h == n + 1 && |pad| == 12
    requires Fits(|src|, off, pitch, 4 * s.id, n)
    requires |lines| == n && LinePackets(lines, src, off, pitch, s.id, n)
    requires start == Offset(off, pitch, n) && start + s.lineLen <= |src|
    requires last == LinePacket(LastLineAsWritten(src, start, s, pad))
    ensures BodyAsWritten(lines + [last], src, off, pitch, s, h, pad)
  {
    var body := lines + [last];
    assert forall i :: 0 <= i < n ==> body[i] == lines[i];
    LinesDelivered(body, src, off, pitch, s.lineLen, s.id, n);
    LastAsWrittenDelivers(last, src, start, s, pad);
    assert Row(src, off, pitch, n, s.lineLen) == src[start..start + s.lineLen];
    assert body[h - 1] == last;
  }

  /** The last line as the epilogue pushes it delivers what
      `LastDelivered` says. */
  lemma LastAsWrittenDelivers(p: Packet, src: seq<int>, start: nat, s: IfcShape, pad: seq<int>)
    requires ShapeOk(s) && s.padbytes > 0 && |pad| == 12
    requires start + s.lineLen <= |src|
    requires p == LinePacket(LastLineAsWritten(src, start, s, pad))
    ensures LastDelivered(p, src[start..start + s.lineLen], s, pad)
  {
    LastLineAsWrittenAgrees(src, start, s, pad);
    if s.padbytes == 2 {
      ShortLastDelivers(p, src, start, s, pad, LastLineAsWritten(src, start, s, pad));
    } else {
      LastLineDelivers(p, src, start, s, pad);
    }
  }

  /** With 2 bytes of padding the last line as written delivers all but the
      row's last 4 bytes, and carries `pad[2..6]` in their place. */
  lemma ShortLastDelivers(p: Packet, src: seq<int>, start: nat, s: IfcShape, pad: seq<int>, bytes: seq<int>)
    requires ShapeOk(s) && s.padbytes == 2 && |pad| == 12
    requires start + s.lineLen <= |src|
    requires bytes == src[start..start + s.lineLen - 4] + pad[2..8] && p == LinePacket(bytes)
    ensures LastDelivered(p, src[start..start + s.lineLen], s, pad)
  {
    var row := src[start..start + s.lineLen];
    assert row[..s.lineLen - 4] == src[start..start + s.lineLen - 4];
    PacketDelivers(p, bytes, row[..s.lineLen - 4], s.id);
    PushRoundTrip(bytes);
    assert bytes[s.lineLen - 4..] == pad[2..8];
    assert bytes[s.lineLen - 4..s.lineLen] == pad[2..8][..4] == pad[2..6];
  }


  /** Packet `i` delivers source row `i`, for each of the `h` rows. */
  predicate AllDelivered(body: seq<Packet>, src: seq<int>, off: nat, pitch: nat, len: nat, id: nat, h: nat)
  {
    |body| == h && forall i :: 0 <= i < h ==> LineDelivered(body, i, src, off, pitch, len, id)
  }

  lemma PaddedDelivered(lines: seq<Packet>, last: Packet, src: seq<int>, off: nat, pitch: nat,
                        s: IfcShape, n: nat, h: nat, pad: seq<int>)
    requires ShapeOk(s) && s.padbytes > 0 && h >= 1 && n == FullLines(h, s.padbytes) && |pad| == 12
    requires IfcReadable(|src|, off, pitch, s, h)
    requires |lines| == n && LinePackets(lines, src, off, pitch, s.id, n)
    requires Offset(off, pitch, n) + s.lineLen <= |src|
    requires last == LinePacket(LastLine(src, Offset(off, pitch, n), s, pad))
    ensures AllDelivered(lines + [last], src, off, pitch, s.lineLen, s.id, h)
  {
    var body := lines + [last];
    assert forall i :: 0 <= i < n ==> body[i] == lines[i];
    LinesDelivered(body, src, off, pitch, s.lineLen, s.id, n);
    var start := Offset(off, pitch, n);
    LastLineDelivers(last, src, start, s, pad);
    assert Row(src, off, pitch, n, s.lineLen) == src[start..start + s.lineLen];
    assert body[n] == last;
    DeliveredNext(body, src, off, pitch, s.lineLen, s.id, n);
  }

  lemma DeliveredNext(body: seq<Packet>, src: seq<int>, off: nat, pitch: nat, len: nat, id: nat, n: nat)
    requires forall i :: 0 <= i < n ==> LineDelivered(body, i, src, off, pitch, len, id)
    requires LineDelivered(body, n, src, off, pitch, len, id)
    ensures forall i :: 0 <= i < n + 1 ==> LineDelivered(body, i, src, off, pitch, len, id)
  {
    forall i | 0 <= i < n + 1
      ensures LineDelivered(body, i, src, off, pitch, len, id)
    {
      if i < n {
      }
    }
  }

  /** The whole-line packets deliver their rows. */
  lemma LinesDelivered(body: seq<Packet>, src: seq<int>, off: nat, pitch: nat, len: nat, id: nat, n: nat)
    requires len <= 4 * id && Fits(|src|, off, pitch, 4 * id, n)
    requires LinePackets(body, src, off, pitch, id, n)
    ensures forall i :: 0 <= i < n ==> LineDelivered(body, i, src, off, pitch, len, id)
  {
    forall i | 0 <= i < n
      ensures LineDelivered(body, i, src, off, pitch, len, id)
    {
      RowFits(|src|, off, pitch, 4 * id, n, i);
      var start := Offset(off, pitch, i);
      assert Row(src, off, pitch, i, 4 * id) == src[start..start + 4 * id];
      assert Row(src, off, pitch, i, len) == src[start..start + len];
      FullLineDelivers(body[i], src, start, len, id);
    }
  }

  /** A line packet whose bytes begin with the row delivers the row. */
  lemma PacketDelivers(p: Packet, bytes: seq<int>, row: seq<int>, id: nat)
    requires |bytes| == 4 * id && p == LinePacket(bytes) && row <= bytes
    ensures LineDelivers(p, row, id)
  {
    PushRoundTrip(bytes);
  }

  /** A whole line pushed straight from `start` delivers its first `len` bytes. */
  lemma FullLineDelivers(p: Packet, src: seq<int>, start: nat, len: nat, id: nat)
    requires len <= 4 * id && start + 4 * id <= |src|
    requires p == LinePacket(src[start..start + 4 * id])
    ensures LineDelivers(p, src[start..start + len], id)
  {
    PacketDelivers(p, src[start..start + 4 * id], src[start..start + len], id);
  }

  /** The padded last line delivers the row. */
  lemma LastLineDelivers(p: Packet, src: seq<int>, start: nat, s: IfcShape, pad: seq<int>)
    requires ShapeOk(s) && s.padbytes > 0 && |pad| == 12
    requires start + s.lineLen <= |src|
    requires p == LinePacket(LastLine(src, start, s, pad))
    ensures LineDelivers(p, src[start..start + s.lineLen], s.id)
  {
    PacketDelivers(p, LastLine(src, start, s, pad), src[start..start + s.lineLen], s.id);
  }
}
