/** The memory-to-memory-format (M2MF) transfer engine of `nouveau_exa.c`:
    a host/GPU copy of `h` lines of `lineLen` bytes is cut into chunks that
    fit the GART staging buffer, and each chunk becomes a short sequence of
    M2MF packets plus a CPU copy into or out of the staging buffer. */
module Transfer {
  import opened CArith
  import opened Hw
  import opened MemCopy

  /** The hardware's limit on the line count of one M2MF transfer. */
  const MaxLines: nat := 2047

  /** The format word of every OFFSET_IN packet, `(1 << 8) | 1`. */
  const Format11: int := 0x101

  /** `min(GART->size / line_len, 2047)`: the most lines one chunk may
      carry. */
  function ChunkCap(gartSize: nat, lineLen: nat): (cap: nat)
    requires lineLen > 0
    ensures cap <= MaxLines
    ensures cap * lineLen <= gartSize
    ensures cap < MaxLines ==> gartSize < (cap + 1) * lineLen
  {
    var q := gartSize / lineLen;
    DivBounds(gartSize, lineLen);
    if q > MaxLines then
      MulLe(MaxLines, q, lineLen);
      MaxLines
    else
      q
  }

  /** A chunk carries at least one line exactly when the staging buffer
      holds at least one line. */
  lemma ChunkCapPositive(gartSize: nat, lineLen: nat)
    requires lineLen > 0
    ensures ChunkCap(gartSize, lineLen) >= 1 <==> gartSize >= lineLen
  {
    var cap := ChunkCap(gartSize, lineLen);
    if cap >= 1 {
      MulLe(1, cap, lineLen);
    }
  }

  /** A staging buffer smaller than one line gives a line count of 0, and
      an iteration of the `while (h)` loop then leaves `h` where it was:
      the loop never ends. The transfer entry points therefore demand at
      least one line of GART. */
  lemma GartTooSmallNeverEnds(gartSize: nat, lineLen: nat, h: nat)
    requires lineLen > gartSize
    ensures ChunkCap(gartSize, lineLen) == 0
    ensures h - Min(ChunkCap(gartSize, lineLen), h) == h
  {
    ChunkCapPositive(gartSize, lineLen);
  }

  /** One iteration of the chunk loop: the first line `y`, the line count,
      and the byte offset of the first line in the surface. */
  datatype Chunk = Chunk(y: int, count: nat, offset: int)

  /** The number of lines the chunks carry. */
  function Lines(cs: seq<Chunk>): nat
  {
    if cs == [] then 0 else cs[0].count + Lines(cs[1..])
  }

  lemma {:induction false} LinesConcat(a: seq<Chunk>, b: seq<Chunk>)
    ensures Lines(a + b) == Lines(a) + Lines(b)
    decreases |a|
  {
    if a == [] {
      assert a + b == b;
    } else {
      assert (a + b)[1..] == a[1..] + b;
      LinesConcat(a[1..], b);
    }
  }

  /** The lines before chunk `i + 1` of `[c] + rest` are `c`'s and those
      before chunk `i` of `rest`. */
  lemma LinesCons(cs: seq<Chunk>, c: Chunk, rest: seq<Chunk>, i: nat)
    requires cs == [c] + rest && 1 <= i <= |cs|
    ensures Lines(cs[..i]) == c.count + Lines(rest[..i - 1])
  {
    assert cs[..i] == [c] + rest[..i - 1];
    LinesConcat([c], rest[..i - 1]);
    assert [c][1..] == [];
  }

  /** The prefix sums grow by the next chunk's count. */
  lemma LinesPrefix(cs: seq<Chunk>, i: nat)
    requires i < |cs|
    ensures Lines(cs[..i + 1]) == Lines(cs[..i]) + cs[i].count
  {
    assert cs[..i + 1] == cs[..i] + [cs[i]];
    LinesConcat(cs[..i], [cs[i]]);
    assert [cs[i]][1..] == [];
  }

  /** The `while (h)` loop of the download and upload paths: each iteration
      first clamps the line count to the lines left (the clamp persists, as
      `line_count` is not reset), then advances `y` by the count and, on a
      linear surface, the offset by `count * pitch` (`step` is the pitch,
      or 0 on a tiled surface whose offset stays 0). */
  function Plan(y: int, h: nat, lineCount: nat, offset: int, step: int): (cs: seq<Chunk>)
    requires lineCount >= 1
    ensures Lines(cs) == h
    ensures forall i :: 0 <= i < |cs| ==> 1 <= cs[i].count <= lineCount
    ensures forall i :: 0 <= i < |cs| - 1 ==> cs[i].count == lineCount
    decreases h
  {
    if h == 0 then []
    else
      var n := Min(lineCount, h);
      var rest := Plan(y + n, h - n, n, offset + n * step, step);
      assert ([Chunk(y, n, offset)] + rest)[1..] == rest;
      [Chunk(y, n, offset)] + rest
  }

  lemma DistributeStep(offset: int, n: int, a: int, step: int)
    ensures offset + n * step + a * step == offset + (n + a) * step
  {
  }

  /** `Plan` unrolled once: a chunk of `n` lines, then the plan for the
      rest with the count clamped to `n`. */
  lemma PlanUnfold(y: int, h: nat, lineCount: nat, offset: int, step: int, n: nat, o2: int)
    requires lineCount >= 1 && h > 0 && n == Min(lineCount, h) && o2 == offset + n * step
    ensures Plan(y, h, lineCount, offset, step) == [Chunk(y, n, offset)] + Plan(y + n, h - n, n, o2, step)
  {
  }

  /** Chunk `i` starts at line `y + Lines(before it)`, and at byte
      `offset + Lines(before it) * step`. */
  predicate Positioned(cs: seq<Chunk>, y: int, offset: int, step: int)
  {
    forall i :: 0 <= i < |cs| ==>
      cs[i].y == y + Lines(cs[..i]) && cs[i].offset == offset + Lines(cs[..i]) * step
  }

  /** Each chunk of the plan starts where the lines before it end, in
      lines and (on a linear surface) in bytes. */
  lemma {:induction false} PlanPositions(y: int, h: nat, lineCount: nat, offset: int, step: int)
    requires lineCount >= 1
    ensures Positioned(Plan(y, h, lineCount, offset, step), y, offset, step)
    decreases h
  {
    if h > 0 {
      var n := Min(lineCount, h);
      var o2 := offset + n * step;
      PlanPositions(y + n, h - n, n, o2, step);
      PlanPositionsStep(y, h, lineCount, offset, step, n, o2);
    }
  }

  /** The step of `PlanPositions`: a positioned rest after the first
      chunk makes a positioned plan. */
  lemma PlanPositionsStep(y: int, h: nat, lineCount: nat, offset: int, step: int, n: nat, o2: int)
    requires lineCount >= 1 && h > 0 && n == Min(lineCount, h) && o2 == offset + n * step
    requires Positioned(Plan(y + n, h - n, n, o2, step), y + n, o2, step)
    ensures Positioned(Plan(y, h, lineCount, offset, step), y, offset, step)
  {
    PlanUnfold(y, h, lineCount, offset, step, n, o2);
    PositionsCons(Chunk(y, n, offset), Plan(y + n, h - n, n, o2, step), y + n, o2, step);
  }

  /** A chunk followed by chunks positioned from where it ends. */
  lemma PositionsCons(c: Chunk, rest: seq<Chunk>, y2: int, o2: int, step: int)
    requires y2 == c.y + c.count && o2 == c.offset + c.count * step
    requires Positioned(rest, y2, o2, step)
    ensures Positioned([c] + rest, c.y, c.offset, step)
  {
    var cs := [c] + rest;
    forall i | 0 <= i < |cs|
      ensures cs[i].y == c.y + Lines(cs[..i])
      ensures cs[i].offset == c.offset + Lines(cs[..i]) * step
    {
      if i == 0 {
        assert cs[..0] == [];
      } else {
        PositionStep(cs, c, rest, i, o2, step);
      }
    }
  }

  lemma PositionStep(cs: seq<Chunk>, c: Chunk, rest: seq<Chunk>, i: nat, o2: int, step: int)
    requires cs == [c] + rest && 1 <= i < |cs|
    requires o2 == c.offset + c.count * step
    requires rest[i - 1].y == c.y + c.count + Lines(rest[..i - 1])
    requires rest[i - 1].offset == o2 + Lines(rest[..i - 1]) * step
    ensures cs[i].y == c.y + Lines(cs[..i])
    ensures cs[i].offset == c.offset + Lines(cs[..i]) * step
  {
    LinesCons(cs, c, rest, i);
    DistributeStep(c.offset, c.count, Lines(rest[..i - 1]), step);
  }

  /** The number of chunks is the line count divided by the chunk size,
      rounded up. */
  lemma {:induction false} PlanLength(y: int, h: nat, lineCount: nat, offset: int, step: int)
    requires lineCount >= 1
    ensures |Plan(y, h, lineCount, offset, step)| == (h + lineCount - 1) / lineCount
    decreases h
  {
    var n := lineCount;
    if h == 0 {
      DivUnique(n - 1, n, 0);
    } else {
      var m := Min(n, h);
      var o2 := offset + m * step;
      PlanLength(y + m, h - m, m, o2, step);
      PlanLengthStep(y, h, n, offset, step, m, o2);
    }
  }

  /** The step of `PlanLength`: one chunk more than the rest. */
  lemma PlanLengthStep(y: int, h: nat, n: nat, offset: int, step: int, m: nat, o2: int)
    requires n >= 1 && h > 0 && m == Min(n, h) && o2 == offset + m * step
    requires |Plan(y + m, h - m, m, o2, step)| == (h - m + m - 1) / m
    ensures |Plan(y, h, n, offset, step)| == (h + n - 1) / n
  {
    PlanUnfold(y, h, n, offset, step, m, o2);
    if h <= n {
      DivUnique(h + n - 1, n, 1);
      DivUnique(m - 1, m, 0);
    } else {
      CeilStep(h, n);
    }
  }

  /** One more chunk's worth of lines is one more chunk. */
  lemma CeilStep(h: nat, n: nat)
    requires 1 <= n < h
    ensures (h + n - 1) / n == 1 + (h - n + n - 1) / n
  {
    var q := (h - 1) / n;
    DivBounds(h - 1, n);
    assert (q + 1) * n == q * n + n;
    DivUnique(h + n - 1, n, q + 1);
  }

  /** The chunks of the largest transfers: 2047 lines go in one chunk,
      2048 in two, and 4096 in three (2047, 2047 and 2). */
  lemma PlanExamples()
    ensures |Plan(0, 2047, MaxLines, 0, 0)| == 1
    ensures |Plan(0, 2048, MaxLines, 0, 0)| == 2
    ensures |Plan(0, 4096, MaxLines, 0, 0)| == 3
    ensures Plan(0, 4096, MaxLines, 0, 0)[2].count == 2
  {
    PlanLength(0, 2047, MaxLines, 0, 0);
    PlanLength(0, 2048, MaxLines, 0, 0);
    PlanLength(0, 4096, MaxLines, 0, 0);
    var cs := Plan(0, 4096, MaxLines, 0, 0);
    assert cs[0].count == MaxLines && cs[1].count == MaxLines;
    assert Lines(cs) == cs[0].count + cs[1].count + cs[2].count by {
      assert cs[1..][1..][1..] == [];
    }
  }

  /** `nv50_style_tiled_pixmap`: a surface is tiled iff the card is an NV50
      and the buffer's tile flags carry a layout. */
  predicate Tiled(arch: nat, pix: Pixmap)
  {
    arch == NvArch50 && pix.tileLayout != 0
  }

  /** Which way a transfer goes. */
  datatype Dir = Download | Upload

  /** The fixed parameters of one M2MF transfer: the card, the surface on
      the GPU side, whether it is addressed as tiled, the column `x`, the
      line length in bytes, and the surface pitch (0 when tiled). */
  datatype Xfer = Xfer(arch: nat, pix: Pixmap, tiled: bool, x: nat, lineLen: nat, pitch: nat)
  {
    predicate Valid() { x * pix.Cpp() < U16 }
  }

  /** The NV50 addressing of the surface side: the seven-word tiled
      descriptor (tile mode, byte width, height, depth 1, layer 0, and the
      start as `(y << 16) | (x * cpp)`), or the single word 1 for a linear
      surface. */
  function SurfaceLayout(t: Xfer, y: int): (args: seq<int>)
    requires t.Valid()
    ensures |args| == (if t.tiled then 7 else 1)
    ensures t.tiled ==> Hi16(args[6]) == y % U16 && Lo16(args[6]) == t.x * t.pix.Cpp()
    ensures !t.tiled ==> args == [1]
  {
    if t.tiled then
      [0, t.pix.tileMode * 16, t.pix.width * t.pix.Cpp(), t.pix.height, 1, 0,
       Pack16(y, t.x * t.pix.Cpp())]
    else
      [1]
  }

  /** The 8-argument OFFSET_IN packet: input and output addresses, input
      and output pitches, line length, line count, format and the trailing
      0. A download reads the surface at its pitch into the GART at stride
      `lineLen`; an upload does the reverse. */
  function OffsetIn(dir: Dir, t: Xfer, c: Chunk): (p: Packet)
    ensures p.obj == MemFormat && p.mthd == M2mfOffsetIn && |p.args| == 8
  {
    var surf := PixmapBo(t.pix.bo);
    var args :=
      match dir
      case Download =>
        [Reloc(surf, c.offset, Low, false), Reloc(GartBo, 0, Low, true),
         Word(t.pitch), Word(t.lineLen), Word(t.lineLen), Word(c.count), Word(Format11), Word(0)]
      case Upload =>
        [Reloc(GartBo, 0, Low, false), Reloc(surf, c.offset, Low, true),
         Word(t.lineLen), Word(t.pitch), Word(t.lineLen), Word(c.count), Word(Format11), Word(0)];
    Packet(MemFormat, M2mfOffsetIn, args)
  }

  /** A copy the M2MF engine is asked for, read back from the packet. */
  datatype M2mfCopy = M2mfCopy(
    srcBo: Bo, srcOff: int, dstBo: Bo, dstOff: int,
    srcPitch: int, dstPitch: int, lineLen: int, count: int)

  /** Decodes an OFFSET_IN packet, or `None` for anything else. */
  function DecodeOffsetIn(p: Packet): (r: Option<M2mfCopy>)
    ensures r.Some? ==> p.mthd == M2mfOffsetIn && |p.args| == 8
  {
    if p.obj == MemFormat && p.mthd == M2mfOffsetIn && |p.args| == 8
       && p.args[0].Reloc? && p.args[0].part == Low && !p.args[0].write
       && p.args[1].Reloc? && p.args[1].part == Low && p.args[1].write
       && p.args[2].Word? && p.args[3].Word? && p.args[4].Word? && p.args[5].Word?
       && p.args[6] == Word(Format11) && p.args[7] == Word(0)
    then
      Some(M2mfCopy(p.args[0].bo, p.args[0].delta, p.args[1].bo, p.args[1].delta,
                    p.args[2].value, p.args[3].value, p.args[4].value, p.args[5].value))
    else
      None
  }

  /** What each direction's OFFSET_IN packet asks the engine to do: a
      download copies `count` lines from the surface at `offset` (surface
      pitch) to the start of the GART (pitch `lineLen`); an upload copies
      them from the GART back to the surface. */
  lemma OffsetInRoundTrip(dir: Dir, t: Xfer, c: Chunk)
    ensures DecodeOffsetIn(OffsetIn(dir, t, c)) ==
      match dir
      case Download =>
        Some(M2mfCopy(PixmapBo(t.pix.bo), c.offset, GartBo, 0, t.pitch, t.lineLen, t.lineLen, c.count))
      case Upload =>
        Some(M2mfCopy(GartBo, 0, PixmapBo(t.pix.bo), c.offset, t.lineLen, t.pitch, t.lineLen, c.count))
  {
  }

  /** The packets of one chunk: DMA_BUFFER_IN with both object handles, on
      NV50 and later the two addressing modes and the high address halves,
      then OFFSET_IN. The surface is the read side of a download and the
      write side of an upload; the GART is the other side. */
  function ChunkPackets(dir: Dir, t: Xfer, c: Chunk): (pk: seq<Packet>)
    requires t.Valid()
    ensures |pk| == (if t.arch >= NvArch50 then 5 else 2)
    ensures pk[0].mthd == M2mfDmaBufferIn && pk[|pk| - 1] == OffsetIn(dir, t, c)
  {
    var surf := PixmapBo(t.pix.bo);
    var up := dir == Upload;
    var handles :=
      if up then [Reloc(GartBo, 0, Handle, false), Reloc(surf, 0, Handle, true)]
      else [Reloc(surf, 0, Handle, false), Reloc(GartBo, 0, Handle, true)];
    var layout := SurfaceLayout(t, c.y);
    var linear := [Word(1)];
    var surfLayout := Words(layout);
    var high :=
      if up then [Reloc(GartBo, 0, High, false), Reloc(surf, c.offset, High, true)]
      else [Reloc(surf, c.offset, High, false), Reloc(GartBo, 0, High, true)];
    var nv50 :=
      if t.arch >= NvArch50 then
        [Packet(MemFormat, M2mfLinearIn, if up then linear else surfLayout),
         Packet(MemFormat, M2mfLinearOut, if up then surfLayout else linear),
         Packet(MemFormat, M2mfOffsetInHigh, high)]
      else [];
    [Packet(MemFormat, M2mfDmaBufferIn, handles)] + nv50 + [OffsetIn(dir, t, c)]
  }

  /** The NV50 packets carry the tiled descriptor on the surface side only:
      LINEAR_IN for a download, LINEAR_OUT for an upload. */
  lemma TiledDescriptorSide(dir: Dir, t: Xfer, c: Chunk)
    requires t.Valid() && t.arch >= NvArch50
    ensures var pk := ChunkPackets(dir, t, c);
      pk[1].mthd == M2mfLinearIn && pk[2].mthd == M2mfLinearOut &&
      |pk[1].args| == (if dir == Download && t.tiled then 7 else 1) &&
      |pk[2].args| == (if dir == Upload && t.tiled then 7 else 1)
  {
  }

  /** The packets of a run of chunks, in order. */
  function AllPackets(dir: Dir, t: Xfer, cs: seq<Chunk>): (pk: seq<Packet>)
    requires t.Valid()
    ensures |pk| == if t.arch >= NvArch50 then 5 * |cs| else 2 * |cs|
  {
    if cs == [] then []
    else ChunkPackets(dir, t, cs[0]) + AllPackets(dir, t, cs[1..])
  }

  /** Appending the packets of the first `d + 1` chunks to a channel's
      packets `p0` is appending the first chunk's, then the next `d`
      chunks'. */
  lemma AllPacketsCons(dir: Dir, t: Xfer, cs: seq<Chunk>, d: nat, p0: seq<Packet>)
    requires t.Valid() && 0 < |cs| && d < |cs|
    ensures AllPackets(dir, t, cs[..d + 1]) == ChunkPackets(dir, t, cs[0]) + AllPackets(dir, t, cs[1..][..d])
    ensures p0 + AllPackets(dir, t, cs[..d + 1])
            == (p0 + ChunkPackets(dir, t, cs[0])) + AllPackets(dir, t, cs[1..][..d])
  {
    var a := cs[..d + 1];
    assert a[0] == cs[0] && a[1..] == cs[1..][..d];
    AllPacketsUnfold(dir, t, a);
    ConcatAssoc(p0, ChunkPackets(dir, t, cs[0]), AllPackets(dir, t, cs[1..][..d]));
  }

  lemma AllPacketsUnfold(dir: Dir, t: Xfer, cs: seq<Chunk>)
    requires t.Valid() && cs != []
    ensures AllPackets(dir, t, cs) == ChunkPackets(dir, t, cs[0]) + AllPackets(dir, t, cs[1..])
  {
  }

  lemma ConcatAssoc<T>(a: seq<T>, b: seq<T>, c: seq<T>)
    ensures a + (b + c) == (a + b) + c
  {
  }

  /** The CPU's use of the GART mapping. */
  datatype Event = Map | Unmap | MapFail

  /** Every successful `nouveau_bo_map` is followed by its unmap, and a
      failed map, if any, ends the sequence. */
  predicate Balanced(ev: seq<Event>)
    decreases |ev|
  {
    ev == [] || ev == [MapFail] ||
    (|ev| >= 2 && ev[0] == Map && ev[1] == Unmap && Balanced(ev[2..]))
  }

  /** The number of successful maps. */
  function Maps(ev: seq<Event>): nat
  {
    if ev == [] then 0 else (if ev[0] == Map then 1 else 0) + Maps(ev[1..])
  }

  lemma MapsPair(rest: seq<Event>)
    ensures Maps([Map, Unmap] + rest) == 1 + Maps(rest)
    ensures Balanced(rest) ==> Balanced([Map, Unmap] + rest)
  {
    assert ([Map, Unmap] + rest)[1..] == [Unmap] + rest;
    assert ([Unmap] + rest)[1..] == rest;
    assert ([Map, Unmap] + rest)[2..] == rest;
  }

  /** What the environment answers for one chunk: whether `MARK_RING`,
      the relocations and the GART map succeed, and (for a download) the
      bytes the GART holds once mapped. */
  datatype ChunkEnv = ChunkEnv(markOk: bool, relocOk: bool, mapOk: bool, gart: seq<int>)

  /** The result of a chunk loop: whether it returned TRUE, the channel,
      the CPU-side memory it wrote (the destination of a download, the GART
      of an upload), the map events, the number of chunks whose packets
      stand, and (upload) the GART contents after each packing. */
  datatype Outcome = Outcome(
    ok: bool, ch: Channel, mem: seq<int>, events: seq<Event>, done: nat, staged: seq<seq<int>>)

  /** Row `a` of the rectangle starting one chunk further on is row `n + a`
      of the rectangle starting at `base`. */
  lemma RowShift<T>(m: seq<T>, base: nat, pitch: nat, n: nat, a: nat, len: nat, b2: nat)
    requires b2 == base + n * pitch
    ensures Row(m, b2, pitch, a, len) == Row(m, base, pitch, n + a, len)
  {
    DistributeStep(base, n, a, pitch);
  }

  /** A rectangle of `n + m` rows is its first `n` rows and the `m` rows
      after them. */
  lemma InRectSplit(j: int, base: nat, pitch: nat, len: nat, n: nat, m: nat, b2: nat)
    requires pitch > 0 && len <= pitch && b2 == base + n * pitch
    ensures InRect(j, base, pitch, len, n + m) <==>
              InRect(j, base, pitch, len, n) || InRect(j, b2, pitch, len, m)
  {
    var x := j - base;
    DivBounds(x, pitch);
    var q, rm := x / pitch, x % pitch;
    InRectBy(j, base, pitch, len, n + m, q, rm);
    InRectBy(j, base, pitch, len, n, q, rm);
    assert j - b2 == (q - n) * pitch + rm;
    InRectBy(j, b2, pitch, len, m, q - n, rm);
  }

  /** Cell `j` lies in the rectangle exactly when its row, the quotient
      `q` of its distance from the base, is one of the rectangle's rows
      and its column, the remainder `rm`, one of its columns. */
  lemma InRectBy(j: int, base: nat, pitch: nat, len: nat, h: nat, q: int, rm: int)
    requires pitch > 0 && j - base == q * pitch + rm && 0 <= rm < pitch
    ensures InRect(j, base, pitch, len, h) <==> 0 <= q < h && rm < len
  {
    if q >= 0 {
      DivUnique(j - base, pitch, q);
    } else {
      MulAwayFromZero(q, pitch);
    }
  }

  /** Fits for the rows after the first `n`. */
  lemma FitsDrop(size: nat, base: nat, pitch: nat, len: nat, n: nat, m: nat, b2: nat)
    requires Fits(size, base, pitch, len, n + m) && b2 == base + n * pitch
    ensures Fits(size, b2, pitch, len, m)
    ensures Fits(size, base, pitch, len, n)
  {
    if m > 0 {
      DistributeStep(base, n, m - 1, pitch);
    }
    if n > 0 {
      MulLe(n - 1, n + m - 1, pitch);
    }
  }

  /** What `NVAccelDownloadM2MF`'s loop needs: a line of at least one byte
      that fits the destination pitch, one environment answer per chunk, a
      GART that holds each chunk, and a destination that holds every
      line. */
  predicate DownloadPre(t: Xfer, cs: seq<Chunk>, envs: seq<ChunkEnv>,
                        ch: Channel, dst: seq<int>, dOff: nat, dstPitch: nat)
  {
    t.Valid() && ch.Valid() && 0 < t.lineLen <= dstPitch && |envs| >= |cs| &&
    (forall i :: 0 <= i < |cs| ==> Fits(|envs[i].gart|, 0, t.lineLen, t.lineLen, cs[i].count)) &&
    Fits(|dst|, dOff, dstPitch, t.lineLen, Lines(cs))
  }

  /** The preconditions of the loop carry over to the chunks after the
      first, with the destination `n` rows further on. */
  lemma DownloadPreTail(t: Xfer, cs: seq<Chunk>, envs: seq<ChunkEnv>,
                        ch: Channel, dst: seq<int>, dOff: nat, dstPitch: nat,
                        ch1: Channel, d1: seq<int>, d2: nat)
    requires DownloadPre(t, cs, envs, ch, dst, dOff, dstPitch) && cs != []
    requires ch1.Valid() && |d1| == |dst| && d2 == dOff + cs[0].count * dstPitch
    ensures Fits(|dst|, dOff, dstPitch, t.lineLen, cs[0].count)
    ensures DownloadPre(t, cs[1..], envs[1..], ch1, d1, d2, dstPitch)
  {
    assert Lines(cs) == cs[0].count + Lines(cs[1..]);
    FitsDrop(|dst|, dOff, dstPitch, t.lineLen, cs[0].count, Lines(cs[1..]), d2);
    forall i | 0 <= i < |cs[1..]|
      ensures Fits(|envs[1..][i].gart|, 0, t.lineLen, t.lineLen, cs[1..][i].count)
    {
      assert envs[1..][i] == envs[i + 1] && cs[1..][i] == cs[i + 1];
    }
  }

  /** The download loop of `NVAccelDownloadM2MF` over the planned chunks.
      Per chunk: `MARK_RING` (on failure return FALSE, nothing written),
      the packets (a failed relocation undoes the chunk), the GART map (a
      failure undoes the chunk), then the staged lines are copied out to
      `dst` at its own pitch and the GART is unmapped. The channel is never
      fired here. Which packets stand, which lines arrive and the map
      discipline are the lemmas below. */
  function DownloadLoop(t: Xfer, cs: seq<Chunk>, envs: seq<ChunkEnv>,
                        ch: Channel, dst: seq<int>, dOff: nat, dstPitch: nat): (r: Outcome)
    requires DownloadPre(t, cs, envs, ch, dst, dOff, dstPitch)
    ensures r.ch.Valid() && r.ch.fired == ch.fired && r.ch.notify == ch.notify
    ensures r.done <= |cs| && (r.ok <==> r.done == |cs|)
    ensures |r.mem| == |dst|
    decreases |cs|
  {
    if cs == [] then
      Outcome(true, ch, dst, [], 0, [])
    else
      var c := cs[0];
      var e := envs[0];
      var ch1 := OutAll(Mark(ch), ChunkPackets(Download, t, c));
      if !e.markOk then
        Outcome(false, ch, dst, [], 0, [])
      else if !e.relocOk then
        Outcome(false, Undo(ch1), dst, [], 0, [])
      else if !e.mapOk then
        Outcome(false, Undo(ch1), dst, [MapFail], 0, [])
      else
        var d2 := dOff + c.count * dstPitch;
        DownloadPreTail(t, cs, envs, ch, dst, dOff, dstPitch, ch1, dst, d2);
        var d1 := MemcpyRect(dst, dOff, dstPitch, e.gart, 0, t.lineLen, t.lineLen, c.count);
        var rest := DownloadLoop(t, cs[1..], envs[1..], ch1, d1, d2, dstPitch);
        Outcome(rest.ok, rest.ch, rest.mem, [Map, Unmap] + rest.events, rest.done + 1, [])
  }

  /** A chunk whose mark, relocations and map all succeed. */
  predicate ChunkOk(e: ChunkEnv)
  {
    e.markOk && e.relocOk && e.mapOk
  }

  /** `DownloadLoop` unrolled over a chunk that succeeds: the chunk's
      packets stand, its lines are copied out, the GART is mapped and
      unmapped once, and the loop carries on `count` rows further down. */
  lemma DownloadUnfold(t: Xfer, cs: seq<Chunk>, envs: seq<ChunkEnv>,
                       ch: Channel, dst: seq<int>, dOff: nat, dstPitch: nat,
                       ch1: Channel, d1: seq<int>, d2: nat)
    requires DownloadPre(t, cs, envs, ch, dst, dOff, dstPitch) && cs != [] && ChunkOk(envs[0])
    requires ch1 == OutAll(Mark(ch), ChunkPackets(Download, t, cs[0]))
    requires d2 == dOff + cs[0].count * dstPitch
    requires Fits(|dst|, dOff, dstPitch, t.lineLen, cs[0].count)
    requires d1 == MemcpyRect(dst, dOff, dstPitch, envs[0].gart, 0, t.lineLen, t.lineLen, cs[0].count)
    requires DownloadPre(t, cs[1..], envs[1..], ch1, d1, d2, dstPitch)
    ensures DownloadLoop(t, cs, envs, ch, dst, dOff, dstPitch)
            == var rest := DownloadLoop(t, cs[1..], envs[1..], ch1, d1, d2, dstPitch);
               Outcome(rest.ok, rest.ch, rest.mem, [Map, Unmap] + rest.events, rest.done + 1, [])
  {
  }

  /** `DownloadLoop` stopped at its first chunk: the channel is back where
      it was, nothing was copied, and at most a failed map happened. */
  lemma DownloadStops(t: Xfer, cs: seq<Chunk>, envs: seq<ChunkEnv>,
                      ch: Channel, dst: seq<int>, dOff: nat, dstPitch: nat)
    requires DownloadPre(t, cs, envs, ch, dst, dOff, dstPitch) && cs != [] && !ChunkOk(envs[0])
    ensures var r := DownloadLoop(t, cs, envs, ch, dst, dOff, dstPitch);
      !r.ok && r.done == 0 && r.ch.packets == ch.packets && r.mem == dst &&
      (r.events == [] || r.events == [MapFail])
  {
    UndoRestores(ch, ChunkPackets(Download, t, cs[0]));
  }

  /** A failed chunk leaves no packet behind (`MARK_UNDO` rolls back to the
      chunk's mark), so the channel holds the packets of the chunks that
      completed, in order. */
  lemma {:induction false} DownloadPackets(t: Xfer, cs: seq<Chunk>, envs: seq<ChunkEnv>,
                                           ch: Channel, dst: seq<int>, dOff: nat, dstPitch: nat)
    requires DownloadPre(t, cs, envs, ch, dst, dOff, dstPitch)
    ensures var r := DownloadLoop(t, cs, envs, ch, dst, dOff, dstPitch);
      r.ch.packets == ch.packets + AllPackets(Download, t, cs[..r.done])
    decreases |cs|
  {
    if cs != [] && ChunkOk(envs[0]) {
      var ch1 := OutAll(Mark(ch), ChunkPackets(Download, t, cs[0]));
      var d2 := dOff + cs[0].count * dstPitch;
      DownloadPreTail(t, cs, envs, ch, dst, dOff, dstPitch, ch1, dst, d2);
      var d1 := MemcpyRect(dst, dOff, dstPitch, envs[0].gart, 0, t.lineLen, t.lineLen, cs[0].count);
      DownloadPreTail(t, cs, envs, ch, dst, dOff, dstPitch, ch1, d1, d2);
      DownloadUnfold(t, cs, envs, ch, dst, dOff, dstPitch, ch1, d1, d2);
      var rest := DownloadLoop(t, cs[1..], envs[1..], ch1, d1, d2, dstPitch);
      var r := DownloadLoop(t, cs, envs, ch, dst, dOff, dstPitch);
      assert r.ch == rest.ch && r.done == rest.done + 1;
      DownloadPackets(t, cs[1..], envs[1..], ch1, d1, d2, dstPitch);
      AllPacketsCons(Download, t, cs, rest.done, ch.packets);
    } else if cs != [] {
      DownloadStops(t, cs, envs, ch, dst, dOff, dstPitch);
    }
  }

  /** Every successful map of the GART is followed by its unmap, a failed
      map ends the loop, and each completed chunk mapped the GART once. */
  lemma {:induction false} DownloadMaps(t: Xfer, cs: seq<Chunk>, envs: seq<ChunkEnv>,
                                        ch: Channel, dst: seq<int>, dOff: nat, dstPitch: nat)
    requires DownloadPre(t, cs, envs, ch, dst, dOff, dstPitch)
    ensures var r := DownloadLoop(t, cs, envs, ch, dst, dOff, dstPitch);
      Balanced(r.events) && Maps(r.events) == r.done
    decreases |cs|
  {
    if cs != [] && ChunkOk(envs[0]) {
      var ch1 := OutAll(Mark(ch), ChunkPackets(Download, t, cs[0]));
      var d2 := dOff + cs[0].count * dstPitch;
      DownloadPreTail(t, cs, envs, ch, dst, dOff, dstPitch, ch1, dst, d2);
      var d1 := MemcpyRect(dst, dOff, dstPitch, envs[0].gart, 0, t.lineLen, t.lineLen, cs[0].count);
      DownloadPreTail(t, cs, envs, ch, dst, dOff, dstPitch, ch1, d1, d2);
      DownloadUnfold(t, cs, envs, ch, dst, dOff, dstPitch, ch1, d1, d2);
      var rest := DownloadLoop(t, cs[1..], envs[1..], ch1, d1, d2, dstPitch);
      DownloadMaps(t, cs[1..], envs[1..], ch1, d1, d2, dstPitch);
      MapsPair(rest.events);
    } else if cs != [] {
      DownloadStops(t, cs, envs, ch, dst, dOff, dstPitch);
      assert Maps([MapFail]) == 0 by {
        assert [MapFail][1..] == [];
      }
    }
  }

  /** Line `k` of each of the first `n` chunks sits in row
      `Lines(chunks before it) + k` of the rectangle at `base`, and holds
      line `k` of what the GART held for that chunk. */
  predicate ChunkRowsDelivered(mem: seq<int>, base: nat, pitch: nat, len: nat,
                               cs: seq<Chunk>, envs: seq<ChunkEnv>, n: nat)
    requires n <= |cs| <= |envs|
  {
    forall i, k :: 0 <= i < n && 0 <= k < cs[i].count ==>
      Row(mem, base, pitch, Lines(cs[..i]) + k, len) == Row(envs[i].gart, 0, len, k, len)
  }

  /** `mem` differs from `before` at most inside the `h`-row rectangle at
      `base`. */
  predicate OnlyRect(before: seq<int>, mem: seq<int>, base: nat, pitch: nat, len: nat, h: nat)
    requires pitch > 0
  {
    |mem| == |before| &&
    forall j :: 0 <= j < |before| && !InRect(j, base, pitch, len, h) ==> mem[j] == before[j]
  }

  /** Line `k` of completed chunk `i` lands in destination row
      `Lines(chunks before i) + k`, copied from line `k` of what the GART
      held for that chunk; every byte outside the rows of the completed
      chunks keeps its value. */
  lemma {:induction false} DownloadRows(t: Xfer, cs: seq<Chunk>, envs: seq<ChunkEnv>,
                                        ch: Channel, dst: seq<int>, dOff: nat, dstPitch: nat)
    requires DownloadPre(t, cs, envs, ch, dst, dOff, dstPitch)
    ensures var r := DownloadLoop(t, cs, envs, ch, dst, dOff, dstPitch);
      ChunkRowsDelivered(r.mem, dOff, dstPitch, t.lineLen, cs, envs, r.done) &&
      OnlyRect(dst, r.mem, dOff, dstPitch, t.lineLen, Lines(cs[..r.done]))
    decreases |cs|
  {
    assert cs[..0] == [];
    if cs != [] && ChunkOk(envs[0]) {
      var ch1 := OutAll(Mark(ch), ChunkPackets(Download, t, cs[0]));
      var d2 := dOff + cs[0].count * dstPitch;
      DownloadPreTail(t, cs, envs, ch, dst, dOff, dstPitch, ch1, dst, d2);
      var d1 := MemcpyRect(dst, dOff, dstPitch, envs[0].gart, 0, t.lineLen, t.lineLen, cs[0].count);
      DownloadPreTail(t, cs, envs, ch, dst, dOff, dstPitch, ch1, d1, d2);
      DownloadUnfold(t, cs, envs, ch, dst, dOff, dstPitch, ch1, d1, d2);
      var rest := DownloadLoop(t, cs[1..], envs[1..], ch1, d1, d2, dstPitch);
      var r := DownloadLoop(t, cs, envs, ch, dst, dOff, dstPitch);
      assert r.mem == rest.mem && r.done == rest.done + 1;
      DownloadRows(t, cs[1..], envs[1..], ch1, d1, d2, dstPitch);
      DownloadStep(t, cs, envs, dst, dOff, dstPitch, d1, d2, rest);
    } else if cs != [] {
      DownloadStops(t, cs, envs, ch, dst, dOff, dstPitch);
    }
  }

  /** The inductive step of `DownloadRows`: the first chunk's rows come
      from its copy-out, which the remaining chunks (starting `n` rows
      further on, at `d2`) leave alone. */
  lemma DownloadStep(t: Xfer, cs: seq<Chunk>, envs: seq<ChunkEnv>,
                     dst: seq<int>, dOff: nat, dstPitch: nat,
                     d1: seq<int>, d2: nat, rest: Outcome)
    requires 0 < t.lineLen <= dstPitch
    requires 0 < |cs| <= |envs|
    requires Fits(|envs[0].gart|, 0, t.lineLen, t.lineLen, cs[0].count)
    requires Fits(|dst|, dOff, dstPitch, t.lineLen, cs[0].count)
    requires d2 == dOff + cs[0].count * dstPitch
    requires d1 == MemcpyRect(dst, dOff, dstPitch, envs[0].gart, 0, t.lineLen, t.lineLen, cs[0].count)
    requires rest.done <= |cs| - 1
    requires ChunkRowsDelivered(rest.mem, d2, dstPitch, t.lineLen, cs[1..], envs[1..], rest.done)
    requires OnlyRect(d1, rest.mem, d2, dstPitch, t.lineLen, Lines(cs[1..][..rest.done]))
    ensures ChunkRowsDelivered(rest.mem, dOff, dstPitch, t.lineLen, cs, envs, rest.done + 1)
    ensures OnlyRect(dst, rest.mem, dOff, dstPitch, t.lineLen, Lines(cs[..rest.done + 1]))
  {
    var n := cs[0].count;
    var m := Lines(cs[1..][..rest.done]);
    LinesCons(cs[..rest.done + 1], cs[0], cs[1..][..rest.done], rest.done + 1);
    assert cs[..rest.done + 1][..rest.done + 1] == cs[..rest.done + 1];
    forall i, k | 0 <= i < rest.done + 1 && 0 <= k < cs[i].count
      ensures Row(rest.mem, dOff, dstPitch, Lines(cs[..i]) + k, t.lineLen)
              == Row(envs[i].gart, 0, t.lineLen, k, t.lineLen)
    {
      if i == 0 {
        assert cs[..0] == [];
        FirstChunkRow(dOff, dstPitch, t.lineLen, n, d1, d2, m, rest.mem, k);
      } else {
        LaterChunkRow(cs, envs, rest.mem, dOff, dstPitch, t.lineLen, d2, i, k);
      }
    }
    forall j | 0 <= j < |dst| && !InRect(j, dOff, dstPitch, t.lineLen, Lines(cs[..rest.done + 1]))
      ensures rest.mem[j] == dst[j]
    {
      InRectSplit(j, dOff, dstPitch, t.lineLen, n, m, d2);
    }
  }

  /** A row of the first chunk survives the later chunks' copies, which
      only write rows from `d2` on. */
  lemma FirstChunkRow(dOff: nat, dstPitch: nat, len: nat, n: nat,
                      d1: seq<int>, d2: nat, m: nat, mem: seq<int>, k: nat)
    requires 0 < len <= dstPitch && k < n && d2 == dOff + n * dstPitch
    requires |Row(d1, dOff, dstPitch, k, len)| == len
    requires OnlyRect(d1, mem, d2, dstPitch, len, m)
    ensures Row(mem, dOff, dstPitch, k, len) == Row(d1, dOff, dstPitch, k, len)
  {
    var s := dOff + k * dstPitch;
    MulLe(k + 1, n, dstPitch);
    assert s + len <= d2;
    forall j | s <= j < s + len
      ensures mem[j] == d1[j]
    {
      assert !InRect(j, d2, dstPitch, len, m);
    }
    assert mem[s..s + len] == d1[s..s + len];
  }

  /** A row of a later chunk, seen from the loop's first destination
      row. */
  lemma LaterChunkRow(cs: seq<Chunk>, envs: seq<ChunkEnv>, mem: seq<int>, dOff: nat, dstPitch: nat,
                      len: nat, d2: nat, i: nat, k: nat)
    requires 1 <= i < |cs| <= |envs| && d2 == dOff + cs[0].count * dstPitch
    requires Row(mem, d2, dstPitch, Lines(cs[1..][..i - 1]) + k, len)
             == Row(envs[1..][i - 1].gart, 0, len, k, len)
    ensures Row(mem, dOff, dstPitch, Lines(cs[..i]) + k, len) == Row(envs[i].gart, 0, len, k, len)
  {
    LinesCons(cs, cs[0], cs[1..], i);
    RowShift(mem, dOff, dstPitch, cs[0].count, Lines(cs[1..][..i - 1]) + k, len, d2);
    assert envs[1..][i - 1] == envs[i];
  }

  /** What `NVAccelUploadM2MF`'s loop needs: one environment answer per
      chunk, a GART that holds each chunk, and a source that holds every
      line. */
  predicate UploadPre(t: Xfer, cs: seq<Chunk>, envs: seq<ChunkEnv>,
                      ch: Channel, gart: seq<int>, src: seq<int>, sOff: nat, srcPitch: nat)
  {
    t.Valid() && ch.Valid() && t.lineLen > 0 && |envs| >= |cs| &&
    (forall i :: 0 <= i < |cs| ==> Fits(|gart|, 0, t.lineLen, t.lineLen, cs[i].count)) &&
    Fits(|src|, sOff, srcPitch, t.lineLen, Lines(cs))
  }

  lemma UploadPreTail(t: Xfer, cs: seq<Chunk>, envs: seq<ChunkEnv>,
                      ch: Channel, gart: seq<int>, src: seq<int>, sOff: nat, srcPitch: nat,
                      ch1: Channel, g1: seq<int>, s2: nat)
    requires UploadPre(t, cs, envs, ch, gart, src, sOff, srcPitch) && cs != []
    requires ch1.Valid() && |g1| == |gart| && s2 == sOff + cs[0].count * srcPitch
    ensures Fits(|src|, sOff, srcPitch, t.lineLen, cs[0].count)
    ensures UploadPre(t, cs[1..], envs[1..], ch1, g1, src, s2, srcPitch)
  {
    assert Lines(cs) == cs[0].count + Lines(cs[1..]);
    FitsDrop(|src|, sOff, srcPitch, t.lineLen, cs[0].count, Lines(cs[1..]), s2);
    forall i | 0 <= i < |cs[1..]|
      ensures Fits(|g1|, 0, t.lineLen, t.lineLen, cs[1..][i].count)
    {
      assert cs[1..][i] == cs[i + 1];
    }
  }

  /** The upload loop of `NVAccelUploadM2MF`. Per chunk: map the GART (on
      failure return FALSE), pack the chunk's lines tightly into it from
      `src` at the caller's pitch, unmap, then `MARK_RING` (on failure
      return FALSE), the packets (a failed relocation undoes the chunk) and
      `FIRE_RING`. Each packing is recorded in `staged`. */
  function UploadLoop(t: Xfer, cs: seq<Chunk>, envs: seq<ChunkEnv>,
                      ch: Channel, gart: seq<int>, src: seq<int>, sOff: nat, srcPitch: nat): (r: Outcome)
    requires UploadPre(t, cs, envs, ch, gart, src, sOff, srcPitch)
    ensures r.ch.Valid() && r.ch.fired == ch.fired + r.done && r.ch.notify == ch.notify
    ensures r.done <= |r.staged| <= |cs| && |r.staged| <= r.done + 1
    ensures r.ok <==> r.done == |cs|
    ensures |r.mem| == |gart|
    decreases |cs|
  {
    if cs == [] then
      Outcome(true, ch, gart, [], 0, [])
    else
      var c := cs[0];
      var e := envs[0];
      if !e.mapOk then
        Outcome(false, ch, gart, [MapFail], 0, [])
      else
        var s2 := sOff + c.count * srcPitch;
        UploadPreTail(t, cs, envs, ch, gart, src, sOff, srcPitch, ch, gart, s2);
        var g1 := MemcpyRect(gart, 0, t.lineLen, src, sOff, srcPitch, t.lineLen, c.count);
        var ch1 := OutAll(Mark(ch), ChunkPackets(Upload, t, c));
        if !e.markOk then
          Outcome(false, ch, g1, [Map, Unmap], 0, [g1])
        else if !e.relocOk then
          Outcome(false, Undo(ch1), g1, [Map, Unmap], 0, [g1])
        else
          UploadPreTail(t, cs, envs, ch, gart, src, sOff, srcPitch, Submit(ch1), g1, s2);
          var rest := UploadLoop(t, cs[1..], envs[1..], Submit(ch1), g1, src, s2, srcPitch);
          Outcome(rest.ok, rest.ch, rest.mem, [Map, Unmap] + rest.events, rest.done + 1, [g1] + rest.staged)
  }

  /** `UploadLoop` unrolled over a chunk that succeeds: the chunk is
      packed into the GART, its packets stand and are fired, and the loop
      carries on `count` source rows further down. */
  lemma UploadUnfold(t: Xfer, cs: seq<Chunk>, envs: seq<ChunkEnv>,
                     ch: Channel, gart: seq<int>, src: seq<int>, sOff: nat, srcPitch: nat,
                     ch1: Channel, g1: seq<int>, s2: nat)
    requires UploadPre(t, cs, envs, ch, gart, src, sOff, srcPitch) && cs != [] && ChunkOk(envs[0])
    requires s2 == sOff + cs[0].count * srcPitch
    requires Fits(|src|, sOff, srcPitch, t.lineLen, cs[0].count)
    requires g1 == MemcpyRect(gart, 0, t.lineLen, src, sOff, srcPitch, t.lineLen, cs[0].count)
    requires ch1 == Submit(OutAll(Mark(ch), ChunkPackets(Upload, t, cs[0])))
    requires UploadPre(t, cs[1..], envs[1..], ch1, g1, src, s2, srcPitch)
    ensures UploadLoop(t, cs, envs, ch, gart, src, sOff, srcPitch)
            == var rest := UploadLoop(t, cs[1..], envs[1..], ch1, g1, src, s2, srcPitch);
               Outcome(rest.ok, rest.ch, rest.mem, [Map, Unmap] + rest.events, rest.done + 1,
                       [g1] + rest.staged)
  {
  }

  /** `UploadLoop` stopped at its first chunk: no packet stands and
      nothing was fired; a failed map stages nothing, a later failure
      leaves the one packing it made. */
  lemma UploadStops(t: Xfer, cs: seq<Chunk>, envs: seq<ChunkEnv>,
                    ch: Channel, gart: seq<int>, src: seq<int>, sOff: nat, srcPitch: nat)
    requires UploadPre(t, cs, envs, ch, gart, src, sOff, srcPitch) && cs != [] && !ChunkOk(envs[0])
    ensures var r := UploadLoop(t, cs, envs, ch, gart, src, sOff, srcPitch);
      !r.ok && r.done == 0 && r.ch.packets == ch.packets && r.ch.fired == ch.fired &&
      (if envs[0].mapOk then r.events == [Map, Unmap] && r.staged == [r.mem]
       else r.events == [MapFail] && r.staged == [])
  {
    UndoRestores(ch, ChunkPackets(Upload, t, cs[0]));
  }

  /** The channel holds the packets of the completed chunks, in order,
      each chunk fired once. */
  lemma {:induction false} UploadPackets(t: Xfer, cs: seq<Chunk>, envs: seq<ChunkEnv>,
                                         ch: Channel, gart: seq<int>, src: seq<int>, sOff: nat, srcPitch: nat)
    requires UploadPre(t, cs, envs, ch, gart, src, sOff, srcPitch)
    ensures var r := UploadLoop(t, cs, envs, ch, gart, src, sOff, srcPitch);
      r.ch.packets == ch.packets + AllPackets(Upload, t, cs[..r.done])
    decreases |cs|
  {
    assert cs[..0] == [];
    if cs != [] && ChunkOk(envs[0]) {
      var s2 := sOff + cs[0].count * srcPitch;
      UploadPreTail(t, cs, envs, ch, gart, src, sOff, srcPitch, ch, gart, s2);
      var g1 := MemcpyRect(gart, 0, t.lineLen, src, sOff, srcPitch, t.lineLen, cs[0].count);
      var pk0 := ChunkPackets(Upload, t, cs[0]);
      var ch1 := Submit(OutAll(Mark(ch), pk0));
      UploadPreTail(t, cs, envs, ch, gart, src, sOff, srcPitch, ch1, g1, s2);
      UploadUnfold(t, cs, envs, ch, gart, src, sOff, srcPitch, ch1, g1, s2);
      var rest := UploadLoop(t, cs[1..], envs[1..], ch1, g1, src, s2, srcPitch);
      var r := UploadLoop(t, cs, envs, ch, gart, src, sOff, srcPitch);
      assert r.ch == rest.ch && r.done == rest.done + 1;
      UploadPackets(t, cs[1..], envs[1..], ch1, g1, src, s2, srcPitch);
      AllPacketsCons(Upload, t, cs, rest.done, ch.packets);
    } else if cs != [] {
      UploadStops(t, cs, envs, ch, gart, src, sOff, srcPitch);
    }
  }

  /** Every successful map is followed by its unmap, a failed map ends the
      loop, and there is one map per packing. */
  lemma {:induction false} UploadMaps(t: Xfer, cs: seq<Chunk>, envs: seq<ChunkEnv>,
                                      ch: Channel, gart: seq<int>, src: seq<int>, sOff: nat, srcPitch: nat)
    requires UploadPre(t, cs, envs, ch, gart, src, sOff, srcPitch)
    ensures var r := UploadLoop(t, cs, envs, ch, gart, src, sOff, srcPitch);
      Balanced(r.events) && Maps(r.events) == |r.staged|
    decreases |cs|
  {
    if cs != [] && ChunkOk(envs[0]) {
      var s2 := sOff + cs[0].count * srcPitch;
      UploadPreTail(t, cs, envs, ch, gart, src, sOff, srcPitch, ch, gart, s2);
      var g1 := MemcpyRect(gart, 0, t.lineLen, src, sOff, srcPitch, t.lineLen, cs[0].count);
      var ch1 := Submit(OutAll(Mark(ch), ChunkPackets(Upload, t, cs[0])));
      UploadPreTail(t, cs, envs, ch, gart, src, sOff, srcPitch, ch1, g1, s2);
      UploadUnfold(t, cs, envs, ch, gart, src, sOff, srcPitch, ch1, g1, s2);
      var rest := UploadLoop(t, cs[1..], envs[1..], ch1, g1, src, s2, srcPitch);
      var r := UploadLoop(t, cs, envs, ch, gart, src, sOff, srcPitch);
      assert r.events == [Map, Unmap] + rest.events && r.staged == [g1] + rest.staged;
      UploadMaps(t, cs[1..], envs[1..], ch1, g1, src, s2, srcPitch);
      MapsPair(rest.events);
    } else if cs != [] {
      UploadStops(t, cs, envs, ch, gart, src, sOff, srcPitch);
      MapsPair([]);
      assert [Map, Unmap] + [] == [Map, Unmap];
      assert Maps([MapFail]) == 0 by {
        assert [MapFail][1..] == [];
      }
    }
  }

  /** A packing `g` of `size` bytes holds chunk `c` tightly at stride
      `len`: its line `k` is source row `before + k`. */
  predicate StagedChunk(g: seq<int>, size: nat, src: seq<int>, sOff: nat, srcPitch: nat,
                        len: nat, c: Chunk, before: nat)
  {
    |g| == size &&
    forall k :: 0 <= k < c.count ==>
      Row(g, 0, len, k, len) == Row(src, sOff, srcPitch, before + k, len)
  }

  /** Packing `i` holds chunk `i`, whose rows start after the lines of the
      chunks before it. */
  predicate StagedRows(staged: seq<seq<int>>, size: nat, src: seq<int>, sOff: nat, srcPitch: nat,
                       len: nat, cs: seq<Chunk>)
  {
    |staged| <= |cs| &&
    forall i :: 0 <= i < |staged| ==>
      StagedChunk(staged[i], size, src, sOff, srcPitch, len, cs[i], Lines(cs[..i]))
  }

  /** Each packing of the GART holds the source lines of its chunk. */
  lemma {:induction false} UploadStaging(t: Xfer, cs: seq<Chunk>, envs: seq<ChunkEnv>,
                                         ch: Channel, gart: seq<int>, src: seq<int>, sOff: nat, srcPitch: nat)
    requires UploadPre(t, cs, envs, ch, gart, src, sOff, srcPitch)
    ensures var r := UploadLoop(t, cs, envs, ch, gart, src, sOff, srcPitch);
      StagedRows(r.staged, |gart|, src, sOff, srcPitch, t.lineLen, cs)
    decreases |cs|
  {
    if cs != [] && envs[0].mapOk {
      var s2 := sOff + cs[0].count * srcPitch;
      UploadPreTail(t, cs, envs, ch, gart, src, sOff, srcPitch, ch, gart, s2);
      var g1 := MemcpyRect(gart, 0, t.lineLen, src, sOff, srcPitch, t.lineLen, cs[0].count);
      assert StagedChunk(g1, |gart|, src, sOff, srcPitch, t.lineLen, cs[0], 0);
      var r := UploadLoop(t, cs, envs, ch, gart, src, sOff, srcPitch);
      if ChunkOk(envs[0]) {
        var ch1 := Submit(OutAll(Mark(ch), ChunkPackets(Upload, t, cs[0])));
        UploadPreTail(t, cs, envs, ch, gart, src, sOff, srcPitch, ch1, g1, s2);
        UploadUnfold(t, cs, envs, ch, gart, src, sOff, srcPitch, ch1, g1, s2);
        var rest := UploadLoop(t, cs[1..], envs[1..], ch1, g1, src, s2, srcPitch);
        assert r.staged == [g1] + rest.staged;
        UploadStaging(t, cs[1..], envs[1..], ch1, g1, src, s2, srcPitch);
        StagingStep(cs, src, sOff, srcPitch, t.lineLen, s2, g1, |gart|, rest.staged);
      } else {
        UploadStops(t, cs, envs, ch, gart, src, sOff, srcPitch);
        assert r.staged == [g1];
        StagingStep(cs, src, sOff, srcPitch, t.lineLen, s2, g1, |gart|, []);
      }
    }
  }

  /** The inductive step of `UploadStaging`: a first packing holding the
      first chunk's lines, ahead of packings of the later chunks read from
      `s2` on. */
  lemma StagingStep(cs: seq<Chunk>, src: seq<int>, sOff: nat, srcPitch: nat, len: nat,
                    s2: nat, g1: seq<int>, size: nat, rest: seq<seq<int>>)
    requires cs != [] && s2 == sOff + cs[0].count * srcPitch
    requires StagedChunk(g1, size, src, sOff, srcPitch, len, cs[0], 0)
    requires StagedRows(rest, size, src, s2, srcPitch, len, cs[1..])
    ensures StagedRows([g1] + rest, size, src, sOff, srcPitch, len, cs)
  {
    var staged := [g1] + rest;
    forall i | 0 <= i < |staged|
      ensures StagedChunk(staged[i], size, src, sOff, srcPitch, len, cs[i], Lines(cs[..i]))
    {
      if i == 0 {
        assert cs[..0] == [];
      } else {
        assert staged[i] == rest[i - 1] && cs[1..][i - 1] == cs[i];
        LinesCons(cs, cs[0], cs[1..], i);
        StagedShift(staged[i], size, src, sOff, s2, srcPitch, len, cs[i], cs[0].count,
                    Lines(cs[1..][..i - 1]));
      }
    }
  }

  /** A packing that holds a chunk `b1` rows into the source at `s2` holds
      it `n + b1` rows into the source `n` rows earlier. */
  lemma StagedShift(g: seq<int>, size: nat, src: seq<int>, sOff: nat, s2: nat, srcPitch: nat,
                    len: nat, c: Chunk, n: nat, b1: nat)
    requires s2 == sOff + n * srcPitch
    requires StagedChunk(g, size, src, s2, srcPitch, len, c, b1)
    ensures StagedChunk(g, size, src, sOff, srcPitch, len, c, n + b1)
  {
    forall k | 0 <= k < c.count
      ensures Row(g, 0, len, k, len) == Row(src, sOff, srcPitch, n + b1 + k, len)
    {
      RowShift(src, sOff, srcPitch, n, b1 + k, len, s2);
    }
  }

  /** Packing a chunk into the GART at stride `lineLen` and unpacking it at
      the destination pitch reproduces the chunk's source lines. */
  lemma StagingRoundTrip(gart: seq<int>, src: seq<int>, sOff: nat, srcPitch: nat,
                         dst: seq<int>, dOff: nat, dstPitch: nat, lineLen: nat, n: nat)
    requires 0 < lineLen <= dstPitch
    requires Fits(|gart|, 0, lineLen, lineLen, n)
    requires Fits(|src|, sOff, srcPitch, lineLen, n) && Fits(|dst|, dOff, dstPitch, lineLen, n)
    ensures var g := MemcpyRect(gart, 0, lineLen, src, sOff, srcPitch, lineLen, n);
      var d := MemcpyRect(dst, dOff, dstPitch, g, 0, lineLen, lineLen, n);
      forall k :: 0 <= k < n ==>
        Row(d, dOff, dstPitch, k, lineLen) == Row(src, sOff, srcPitch, k, lineLen)
  {
  }

  /** The M2MF engine carrying out an OFFSET_IN packet that copies from a
      linear surface holding `surf` into the GART holding `gart`: the GART
      afterwards, or `None` when the packet is no such copy or its
      rectangles do not fit. */
  function EngineDownload(p: Packet, surf: seq<int>, gart: seq<int>): (r: Option<seq<int>>)
    ensures r.Some? ==> |r.value| == |gart|
  {
    match DecodeOffsetIn(p)
    case None => None
    case Some(cp) =>
      if cp.srcBo.PixmapBo? && cp.dstBo == GartBo && cp.srcOff >= 0 && cp.dstOff >= 0
         && cp.srcPitch >= 0 && 0 <= cp.lineLen <= cp.dstPitch && cp.dstPitch > 0 && cp.count >= 0
         && Fits(|gart|, cp.dstOff, cp.dstPitch, cp.lineLen, cp.count)
         && Fits(|surf|, cp.srcOff, cp.srcPitch, cp.lineLen, cp.count)
      then Some(MemcpyRect(gart, cp.dstOff, cp.dstPitch, surf, cp.srcOff, cp.srcPitch, cp.lineLen, cp.count))
      else None
  }

  /** A linear download in which the engine has carried out each chunk's
      OFFSET_IN, from chunk offsets that step down the surface a chunk at a
      time, delivers the surface rectangle at `offset` into `dst`: every
      row of the completed chunks arrives. */
  lemma DownloadDeliversSurface(surf: seq<int>, t: Xfer, cs: seq<Chunk>, envs: seq<ChunkEnv>,
                                 ch: Channel, dst: seq<int>, dOff: nat, dstPitch: nat,
                                 gart0: seq<int>, offset: nat)
    requires DownloadPre(t, cs, envs, ch, dst, dOff, dstPitch) && !t.tiled
    requires forall i :: 0 <= i < |cs| ==> cs[i].offset == offset + Lines(cs[..i]) * t.pitch
    requires forall i :: 0 <= i < |cs| ==>
               EngineDownload(OffsetIn(Download, t, cs[i]), surf, gart0) == Some(envs[i].gart)
    ensures var r := DownloadLoop(t, cs, envs, ch, dst, dOff, dstPitch);
      forall y :: 0 <= y < Lines(cs[..r.done]) ==>
        Row(r.mem, dOff, dstPitch, y, t.lineLen) == Row(surf, offset, t.pitch, y, t.lineLen)
  {
    var r := DownloadLoop(t, cs, envs, ch, dst, dOff, dstPitch);
    DownloadRows(t, cs, envs, ch, dst, dOff, dstPitch);
    forall y | 0 <= y < Lines(cs[..r.done])
      ensures Row(r.mem, dOff, dstPitch, y, t.lineLen) == Row(surf, offset, t.pitch, y, t.lineLen)
    {
      DeliveredRow(surf, t, cs, envs, r.mem, dOff, dstPitch, gart0, offset, r.done, y);
    }
  }

  /** One row of `DownloadDeliversSurface`. */
  lemma DeliveredRow(surf: seq<int>, t: Xfer, cs: seq<Chunk>, envs: seq<ChunkEnv>,
                     mem: seq<int>, dOff: nat, dstPitch: nat, gart0: seq<int>, offset: nat,
                     done: nat, y: nat)
    requires done <= |cs| <= |envs| && y < Lines(cs[..done])
    requires forall i :: 0 <= i < |cs| ==> cs[i].offset == offset + Lines(cs[..i]) * t.pitch
    requires forall i :: 0 <= i < |cs| ==>
               EngineDownload(OffsetIn(Download, t, cs[i]), surf, gart0) == Some(envs[i].gart)
    requires ChunkRowsDelivered(mem, dOff, dstPitch, t.lineLen, cs, envs, done)
    ensures Row(mem, dOff, dstPitch, y, t.lineLen) == Row(surf, offset, t.pitch, y, t.lineLen)
  {
    var (i, k) := LocateInPrefix(cs, done, y);
    var before := Lines(cs[..i]);
    assert cs[i].offset == offset + before * t.pitch;
    assert EngineDownload(OffsetIn(Download, t, cs[i]), surf, gart0) == Some(envs[i].gart);
    assert Row(mem, dOff, dstPitch, before + k, t.lineLen) == Row(envs[i].gart, 0, t.lineLen, k, t.lineLen);
    EngineRow(surf, t, cs[i], envs[i].gart, gart0, offset, before, k);
  }

  /** The chunk and line within it that carry row `y` of a run of
      chunks. */
  function Locate(cs: seq<Chunk>, y: nat): (r: (nat, nat))
    requires y < Lines(cs)
    ensures r.0 < |cs| && r.1 < cs[r.0].count && y == Lines(cs[..r.0]) + r.1
    decreases |cs|
  {
    if y < cs[0].count then
      assert cs[..0] == [];
      (0, y)
    else
      var (i, k) := Locate(cs[1..], y - cs[0].count);
      LinesCons(cs, cs[0], cs[1..], i + 1);
      assert cs[1..][i] == cs[i + 1];
      (i + 1, k)
  }

  /** `Locate` within the first `n` chunks. */
  function LocateInPrefix(cs: seq<Chunk>, n: nat, y: nat): (r: (nat, nat))
    requires n <= |cs| && y < Lines(cs[..n])
    ensures r.0 < n && r.1 < cs[r.0].count && y == Lines(cs[..r.0]) + r.1
  {
    var (i, k) := Locate(cs[..n], y);
    assert cs[..n][..i] == cs[..i] && cs[..n][i] == cs[i];
    (i, k)
  }

  /** Line `k` of what the engine staged for a chunk `before` rows into the
      rectangle at `offset` is row `before + k` of that rectangle. */
  lemma EngineRow(surf: seq<int>, t: Xfer, c: Chunk, g: seq<int>, gart0: seq<int>,
                  offset: nat, before: nat, k: nat)
    requires k < c.count && c.offset == offset + before * t.pitch
    requires EngineDownload(OffsetIn(Download, t, c), surf, gart0) == Some(g)
    ensures Row(g, 0, t.lineLen, k, t.lineLen) == Row(surf, offset, t.pitch, before + k, t.lineLen)
  {
    OffsetInRoundTrip(Download, t, c);
    RowShift(surf, offset, t.pitch, before, k, t.lineLen, c.offset);
  }

  /** A prefix carries no more lines than the whole. */
  lemma {:induction false} PrefixLines(cs: seq<Chunk>, i: nat)
    requires i <= |cs|
    ensures Lines(cs[..i]) <= Lines(cs)
  {
    assert cs == cs[..i] + cs[i..];
    LinesConcat(cs[..i], cs[i..]);
  }
}
