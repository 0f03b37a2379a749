/** The EXA download and upload entry points of `nouveau_exa.c`: each tries
    the fastest transfer that applies (CPU push through the IFC object for
    a small upload, the M2MF engine through the GART otherwise) and falls
    back to mapping the pixmap's buffer and copying with the CPU. */
module Exa {
  import opened CArith
  import opened Hw
  import opened MemCopy
  import opened Transfer
  import Nv04Exa

  /** The transfer that carried a download or upload out, or `Refused`
      when every way failed. */
  datatype Path = ByIfc | BySifc | ByM2mf | ByMap | Refused

  /** The end of a download: the verdict, the way taken, the channel and
      the caller's buffer. */
  datatype Downloaded = Downloaded(ok: bool, path: Path, ch: Channel, dst: seq<int>)

  /** The end of an upload: the verdict, the way taken, the NV04 state
      (whose channel the M2MF path also writes), the pixmap's buffer as
      the CPU sees it, and the GART. */
  datatype Uploaded = Uploaded(ok: bool, path: Path, st: Nv04Exa.Nv04, surf: seq<int>, gart: seq<int>)

  // ---------------------------------------------------------------------
  // A whole M2MF transfer

  /** The fixed parameters of an M2MF transfer of lines `w` pixels wide at
      column `x`: a tiled surface is addressed through its descriptor with
      pitch 0, a linear one at its own pitch. */
  function XferOf(arch: nat, pix: Pixmap, x: nat, w: nat): Xfer
  {
    var tiled := Tiled(arch, pix);
    Xfer(arch, pix, tiled, x, w * pix.Cpp(), if tiled then 0 else pix.pitch)
  }

  /** The byte offset of the first line on the surface: `y * pitch +
      x * cpp` for a linear surface, 0 for a tiled one. */
  function StartOf(t: Xfer, y: nat): nat
  {
    if t.tiled then 0 else y * t.pitch + t.x * t.pix.Cpp()
  }

  /** The chunks of a transfer of `h` lines through a GART of `gartSize`
      bytes, at most `min(gartSize / lineLen, 2047)` lines each. */
  function PlanOf(t: Xfer, gartSize: nat, y: nat, h: nat): (cs: seq<Chunk>)
    requires t.lineLen > 0
    ensures Lines(cs) == h
    ensures forall i :: 0 <= i < |cs| ==> 1 <= cs[i].count
    ensures forall i :: 0 <= i < |cs| ==> cs[i].count <= MaxLines
    ensures gartSize >= t.lineLen ==> forall i :: 0 <= i < |cs| ==> cs[i].count * t.lineLen <= gartSize
  {
    var cap := ChunkCap(gartSize, t.lineLen);
    var cs := Plan(y, h, Max(cap, 1), StartOf(t, y), t.pitch);
    forall i | 0 <= i < |cs|
      ensures cs[i].count <= MaxLines
      ensures gartSize >= t.lineLen ==> cs[i].count * t.lineLen <= gartSize
    {
      if cap == 0 {
        if gartSize >= t.lineLen {
          ChunkCapPositive(gartSize, t.lineLen);
          assert false;
        }
      } else {
        MulLe(cs[i].count, cap, t.lineLen);
      }
    }
    cs
  }

  /** Every chunk carries a line, so there are no more chunks than lines. */
  lemma {:induction false} ChunksAtMostLines(cs: seq<Chunk>)
    requires forall i :: 0 <= i < |cs| ==> 1 <= cs[i].count
    ensures |cs| <= Lines(cs)
    decreases |cs|
  {
    if cs != [] {
      assert forall i :: 0 <= i < |cs[1..]| ==> cs[1..][i] == cs[i + 1];
      ChunksAtMostLines(cs[1..]);
    }
  }

  /** What an M2MF transfer needs from its caller and its environment: a
      line of at least one byte whose column fits the 16-bit field, a GART
      holding at least one line (with less, the loop never ends), and an
      answer of the environment for every line (each chunk carries one). */
  predicate M2mfReady(t: Xfer, gartSize: nat, envs: seq<ChunkEnv>, h: nat)
  {
    t.Valid() && t.lineLen > 0 && (h == 0 || gartSize >= t.lineLen) && |envs| >= h
  }

  /** A chunk of `n` lines of `len` bytes, `n * len <= size`, fits a GART
      of `size` bytes at stride `len`. */
  lemma ChunkFitsGart(size: nat, len: nat, n: nat)
    requires n * len <= size
    ensures Fits(size, 0, len, len, n)
  {
    if n > 0 {
      assert (n - 1) * len + len == n * len;
    }
  }

  /** `NVAccelDownloadM2MF`: plan the chunks, then run the download loop
      into `dst` at its own pitch. On success every line of the rectangle
      came through the GART and nothing outside the rectangle moved. */
  function DownloadM2mf(t: Xfer, gartSize: nat, y: nat, h: nat, envs: seq<ChunkEnv>,
                        ch: Channel, dst: seq<int>, dstPitch: nat): (r: Outcome)
    requires M2mfReady(t, gartSize, envs, h) && ch.Valid()
    requires forall i :: 0 <= i < |envs| ==> |envs[i].gart| == gartSize
    requires t.lineLen <= dstPitch && Fits(|dst|, 0, dstPitch, t.lineLen, h)
    ensures r.ch.Valid() && r.ch.fired == ch.fired && r.ch.notify == ch.notify
    ensures |r.mem| == |dst|
    ensures OnlyRect(dst, r.mem, 0, dstPitch, t.lineLen, h)
    ensures r.ok ==> r.ch.packets == ch.packets + AllPackets(Download, t, PlanOf(t, gartSize, y, h))
  {
    var cs := PlanOf(t, gartSize, y, h);
    DownloadReady(t, gartSize, y, h, envs, ch, dst, dstPitch);
    var r := DownloadLoop(t, cs, envs, ch, dst, 0, dstPitch);
    DownloadRows(t, cs, envs, ch, dst, 0, dstPitch);
    DownloadPackets(t, cs, envs, ch, dst, 0, dstPitch);
    PrefixLines(cs, r.done);
    OnlyRectWiden(dst, r.mem, 0, dstPitch, t.lineLen, Lines(cs[..r.done]), h);
    assert r.ok ==> cs[..r.done] == cs;
    r
  }

  /** The planned chunks meet the download loop's precondition. */
  lemma DownloadReady(t: Xfer, gartSize: nat, y: nat, h: nat, envs: seq<ChunkEnv>,
                      ch: Channel, dst: seq<int>, dstPitch: nat)
    requires M2mfReady(t, gartSize, envs, h) && ch.Valid()
    requires forall i :: 0 <= i < |envs| ==> |envs[i].gart| == gartSize
    requires t.lineLen <= dstPitch && Fits(|dst|, 0, dstPitch, t.lineLen, h)
    ensures DownloadPre(t, PlanOf(t, gartSize, y, h), envs, ch, dst, 0, dstPitch)
  {
    var cs := PlanOf(t, gartSize, y, h);
    ChunksAtMostLines(cs);
    forall i | 0 <= i < |cs|
      ensures Fits(|envs[i].gart|, 0, t.lineLen, t.lineLen, cs[i].count)
    {
      ChunkFitsGart(gartSize, t.lineLen, cs[i].count);
    }
  }

  /** `NVAccelUploadM2MF`: plan the chunks, then run the upload loop from
      `src` at its own pitch through the GART. On success every chunk's
      packets stand, each fired once. */
  function UploadM2mf(t: Xfer, gartSize: nat, y: nat, h: nat, envs: seq<ChunkEnv>,
                      ch: Channel, gart: seq<int>, src: seq<int>, srcPitch: nat): (r: Outcome)
    requires M2mfReady(t, gartSize, envs, h) && ch.Valid() && |gart| == gartSize
    requires Fits(|src|, 0, srcPitch, t.lineLen, h)
    ensures r.ch.Valid() && r.ch.notify == ch.notify
    ensures |r.mem| == |gart|
    ensures r.ok ==> r.ch.packets == ch.packets + AllPackets(Upload, t, PlanOf(t, gartSize, y, h))
    ensures r.ok ==> r.ch.fired == ch.fired + |PlanOf(t, gartSize, y, h)|
  {
    var cs := PlanOf(t, gartSize, y, h);
    UploadReady(t, gartSize, y, h, envs, ch, gart, src, srcPitch);
    var r := UploadLoop(t, cs, envs, ch, gart, src, 0, srcPitch);
    UploadPackets(t, cs, envs, ch, gart, src, 0, srcPitch);
    if r.ok then
      assert cs[..r.done] == cs;
      r
    else r
  }

  /** The planned chunks meet the upload loop's precondition. */
  lemma UploadReady(t: Xfer, gartSize: nat, y: nat, h: nat, envs: seq<ChunkEnv>,
                    ch: Channel, gart: seq<int>, src: seq<int>, srcPitch: nat)
    requires M2mfReady(t, gartSize, envs, h) && ch.Valid() && |gart| == gartSize
    requires Fits(|src|, 0, srcPitch, t.lineLen, h)
    ensures UploadPre(t, PlanOf(t, gartSize, y, h), envs, ch, gart, src, 0, srcPitch)
  {
    var cs := PlanOf(t, gartSize, y, h);
    ChunksAtMostLines(cs);
    forall i | 0 <= i < |cs|
      ensures Fits(|gart|, 0, t.lineLen, t.lineLen, cs[i].count)
    {
      ChunkFitsGart(gartSize, t.lineLen, cs[i].count);
    }
  }

  /** A memory that differs from `before` only inside the first `n` rows
      differs only inside the first `h >= n` rows. */
  lemma OnlyRectWiden(before: seq<int>, mem: seq<int>, base: nat, pitch: nat, len: nat, n: nat, h: nat)
    requires pitch > 0 && n <= h && OnlyRect(before, mem, base, pitch, len, n)
    ensures OnlyRect(before, mem, base, pitch, len, h)
  {
  }

  /** The byte offset of the rectangle in the mapped buffer of a pixmap,
      `y * pitch + x * cpp`, tiled or not. */
  function MapStart(pix: Pixmap, x: nat, y: nat): nat
  {
    y * pix.pitch + x * pix.Cpp()
  }

  // ---------------------------------------------------------------------
  // nouveau_exa_download_from_screen

  /** What a download needs: a line of at least one byte that fits the
      destination pitch, a destination and a mapped source that hold the
      rectangle, and, with a GART, what the M2MF transfer needs. `gart` is
      the GART's size, `None` when the driver has no GART. */
  predicate DownloadArgs(arch: nat, pix: Pixmap, gart: Option<nat>, envs: seq<ChunkEnv>,
                         surf: seq<int>, x: nat, y: nat, w: nat, h: nat,
                         dst: seq<int>, dstPitch: nat)
  {
    var t := XferOf(arch, pix, x, w);
    0 < dstPitch && t.lineLen <= dstPitch
    && Fits(|dst|, 0, dstPitch, t.lineLen, h)
    && Fits(|surf|, MapStart(pix, x, y), pix.pitch, t.lineLen, h)
    && (gart.Some? ==> M2mfReady(t, gart.value, envs, h)
                       && forall i :: 0 <= i < |envs| ==> |envs[i].gart| == gart.value)
  }

  /** `nouveau_exa_download_from_screen`: with a GART, the M2MF download;
      if there is none or it fails, map the pixmap's buffer `surf` (on
      failure return FALSE) and copy the rectangle out with the CPU, over
      whatever the failed M2MF attempt left in `dst`. */
  function DownloadFromScreen(arch: nat, pix: Pixmap, gart: Option<nat>, envs: seq<ChunkEnv>,
                              mapOk: bool, surf: seq<int>, ch: Channel,
                              x: nat, y: nat, w: nat, h: nat, dst: seq<int>, dstPitch: nat): (r: Downloaded)
    requires ch.Valid() && DownloadArgs(arch, pix, gart, envs, surf, x, y, w, h, dst, dstPitch)
    ensures r.ch.Valid() && r.ch.fired == ch.fired && |r.dst| == |dst|
    ensures r.ok <==> r.path == ByM2mf || r.path == ByMap
    ensures r.path == ByM2mf <==>
              gart.Some? && DownloadM2mf(XferOf(arch, pix, x, w), gart.value, y, h, envs, ch, dst, dstPitch).ok
    ensures r.ok <==> r.path == ByM2mf || mapOk
    ensures r.path != ByIfc && r.path != BySifc
    ensures r.path == ByMap ==> forall k :: 0 <= k < h ==>
              Row(r.dst, 0, dstPitch, k, w * pix.Cpp()) == Row(surf, MapStart(pix, x, y), pix.pitch, k, w * pix.Cpp())
    ensures OnlyRect(dst, r.dst, 0, dstPitch, w * pix.Cpp(), h)
  {
    var t := XferOf(arch, pix, x, w);
    var m := if gart.Some? then DownloadM2mf(t, gart.value, y, h, envs, ch, dst, dstPitch)
             else Outcome(false, ch, dst, [], 0, []);
    if m.ok then Downloaded(true, ByM2mf, m.ch, m.mem)
    else if !mapOk then Downloaded(false, Refused, m.ch, m.mem)
    else
      var d := MemcpyRect(m.mem, 0, dstPitch, surf, MapStart(pix, x, y), pix.pitch, t.lineLen, h);
      FallbackOnlyRect(dst, m.mem, d, dstPitch, t.lineLen, h);
      Downloaded(true, ByMap, m.ch, d)
  }

  /** Two memories each differing from the one before only inside the same
      rectangle: the last differs from the first only inside it. */
  lemma FallbackOnlyRect(dst: seq<int>, d0: seq<int>, d1: seq<int>, pitch: nat, len: nat, h: nat)
    requires pitch > 0
    requires OnlyRect(dst, d0, 0, pitch, len, h) && OnlyRect(d0, d1, 0, pitch, len, h)
    ensures OnlyRect(dst, d1, 0, pitch, len, h)
  {
  }

  /** What the failed M2MF attempt left in the rectangle does not matter:
      the CPU fallback leaves `dst` exactly as a plain rectangle copy from
      the mapped surface into the caller's original buffer would. */
  lemma DownloadFallbackOverwrites(arch: nat, pix: Pixmap, gart: Option<nat>, envs: seq<ChunkEnv>,
                                   mapOk: bool, surf: seq<int>, ch: Channel,
                                   x: nat, y: nat, w: nat, h: nat, dst: seq<int>, dstPitch: nat)
    requires ch.Valid() && DownloadArgs(arch, pix, gart, envs, surf, x, y, w, h, dst, dstPitch)
    ensures var r := DownloadFromScreen(arch, pix, gart, envs, mapOk, surf, ch, x, y, w, h, dst, dstPitch);
      r.path == ByMap ==>
        r.dst == MemcpyRect(dst, 0, dstPitch, surf, MapStart(pix, x, y), pix.pitch, w * pix.Cpp(), h)
  {
    var r := DownloadFromScreen(arch, pix, gart, envs, mapOk, surf, ch, x, y, w, h, dst, dstPitch);
    var len := w * pix.Cpp();
    if r.path == ByMap {
      var plain := MemcpyRect(dst, 0, dstPitch, surf, MapStart(pix, x, y), pix.pitch, len, h);
      RectCopyDetermined(r.dst, plain, dst, 0, dstPitch, surf, MapStart(pix, x, y), pix.pitch, len, h);
    }
  }

  /** The engine delivers what the GART holds: when, for a linear surface,
      the M2MF engine carries out each planned chunk's OFFSET_IN from the
      surface's contents `surf`, a download that succeeds by either path
      leaves every row of the surface rectangle in `dst`. */
  lemma DownloadDelivers(arch: nat, pix: Pixmap, gart: Option<nat>, envs: seq<ChunkEnv>,
                         mapOk: bool, surf: seq<int>, ch: Channel,
                         x: nat, y: nat, w: nat, h: nat, dst: seq<int>, dstPitch: nat, gart0: seq<int>)
    requires ch.Valid() && DownloadArgs(arch, pix, gart, envs, surf, x, y, w, h, dst, dstPitch)
    requires gart.Some? ==> !Tiled(arch, pix) && EngineServes(XferOf(arch, pix, x, w), gart.value, y, h, envs, surf, gart0)
    ensures var r := DownloadFromScreen(arch, pix, gart, envs, mapOk, surf, ch, x, y, w, h, dst, dstPitch);
      r.ok ==> forall k :: 0 <= k < h ==>
        Row(r.dst, 0, dstPitch, k, w * pix.Cpp()) == Row(surf, MapStart(pix, x, y), pix.pitch, k, w * pix.Cpp())
  {
    var r := DownloadFromScreen(arch, pix, gart, envs, mapOk, surf, ch, x, y, w, h, dst, dstPitch);
    if r.path == ByM2mf {
      var t := XferOf(arch, pix, x, w);
      var g := gart.value;
      var cs := PlanOf(t, g, y, h);
      DownloadReady(t, g, y, h, envs, ch, dst, dstPitch);
      PlanPositions(y, h, Max(ChunkCap(g, t.lineLen), 1), StartOf(t, y), t.pitch);
      assert Positioned(cs, y, MapStart(pix, x, y), t.pitch);
      DownloadDeliversSurface(surf, t, cs, envs, ch, dst, 0, dstPitch, gart0, MapStart(pix, x, y));
      var m := DownloadLoop(t, cs, envs, ch, dst, 0, dstPitch);
      assert m.ok && m.done == |cs| && cs[..m.done] == cs;
    }
  }

  /** The M2MF engine carries out each planned chunk's OFFSET_IN from a
      surface holding `surf`, leaving in the GART what the environment
      reports the CPU finding there. */
  predicate EngineServes(t: Xfer, gartSize: nat, y: nat, h: nat, envs: seq<ChunkEnv>,
                         surf: seq<int>, gart0: seq<int>)
    requires t.lineLen > 0
  {
    var cs := PlanOf(t, gartSize, y, h);
    |envs| >= |cs| &&
    forall i :: 0 <= i < |cs| ==> EngineDownload(OffsetIn(Download, t, cs[i]), surf, gart0) == Some(envs[i].gart)
  }

  // ---------------------------------------------------------------------
  // nouveau_exa_upload_to_screen

  /** The hostdata heuristic: an upload of fewer than 16 KiB is first tried
      by pushing the pixels through the command stream. */
  predicate Hostdata(w: nat, h: nat, cpp: nat)
  {
    w * h * cpp < 16 * 1024
  }

  /** What an upload needs: a state the flush handlers can replay, a
      destination whose pitch fits the surface object and holds a line, a
      column that fits the 16-bit fields, a source and a mapped
      destination that hold the rectangle, a source that holds what an
      accepted IFC push reads, no IFC push of no lines with a padded line
      (its loop would never end), and, with a GART, when the push through
      the command stream did not succeed, what the M2MF transfer needs.
      `gart` is the GART's size, `None` when the driver has none. */
  predicate UploadArgs(st: Nv04Exa.Nv04, arch: nat, pix: Pixmap, gart: Option<nat>,
                       envs: seq<ChunkEnv>, gartMem: seq<int>, sifcOk: bool, surf: seq<int>,
                       src: seq<int>, srcPitch: nat, x: nat, y: nat, w: nat, h: nat, pad: seq<int>)
  {
    var t := XferOf(arch, pix, x, w);
    var cpp := pix.Cpp();
    st.Valid() && Nv04Exa.Addressable(pix) && cpp >= 1 && t.Valid() && |pad| == 12
    && 0 < pix.pitch && t.lineLen <= pix.pitch
    && Fits(|src|, 0, srcPitch, t.lineLen, h)
    && Fits(|surf|, MapStart(pix, x, y), pix.pitch, t.lineLen, h)
    && (Hostdata(w, h, cpp) && Nv04Exa.IfcAccepted(arch, pix, w, h, cpp) ==>
          (h >= 1 || Nv04Exa.Shape(w, cpp).padbytes == 0)
          && Nv04Exa.IfcReadable(|src|, 0, srcPitch, Nv04Exa.Shape(w, cpp), h))
    && (gart.Some? ==> |gartMem| == gart.value
                       && (!HostdataDone(arch, pix, sifcOk, w, h) ==> M2mfReady(t, gart.value, envs, h)))
  }

  /** An upload of no lines whose IFC line would be padded, and so would
      never end, is not allowed. */
  lemma EmptyUploadAllowed(st: Nv04Exa.Nv04, arch: nat, pix: Pixmap, gart: Option<nat>,
                           envs: seq<ChunkEnv>, gartMem: seq<int>, sifcOk: bool, surf: seq<int>,
                           src: seq<int>, srcPitch: nat, x: nat, y: nat, w: nat, pad: seq<int>)
    requires st.Valid() && Nv04Exa.Addressable(pix) && pix.Cpp() >= 1 && XferOf(arch, pix, x, w).Valid()
    requires |pad| == 12 && 0 < pix.pitch && w * pix.Cpp() <= pix.pitch
    requires gart.Some? ==> M2mfReady(XferOf(arch, pix, x, w), gart.value, envs, 0) && |gartMem| == gart.value
    ensures UploadArgs(st, arch, pix, gart, envs, gartMem, sifcOk, surf, src, srcPitch, x, y, w, 0, pad) <==>
              !(Nv04Exa.IfcAccepted(arch, pix, w, 0, pix.Cpp()) && Nv04Exa.Shape(w, pix.Cpp()).padbytes > 0)
  {
  }

  /** An upload of zero width is allowed exactly when there is no GART or
      SIFC takes it from NV50 on: IFC refuses a line of no bytes, and the
      M2MF upload would divide the GART's size by the line length. */
  lemma ZeroWidthUploadAllowed(st: Nv04Exa.Nv04, arch: nat, pix: Pixmap, gart: Option<nat>,
                               envs: seq<ChunkEnv>, gartMem: seq<int>, sifcOk: bool, surf: seq<int>,
                               src: seq<int>, srcPitch: nat, x: nat, y: nat, h: nat, pad: seq<int>)
    requires st.Valid() && Nv04Exa.Addressable(pix) && pix.Cpp() >= 1 && XferOf(arch, pix, x, 0).Valid()
    requires |pad| == 12 && 0 < pix.pitch
    requires Fits(|src|, 0, srcPitch, 0, h) && Fits(|surf|, MapStart(pix, x, y), pix.pitch, 0, h)
    requires gart.Some? ==> |gartMem| == gart.value
    ensures UploadArgs(st, arch, pix, gart, envs, gartMem, sifcOk, surf, src, srcPitch, x, y, 0, h, pad) <==>
              gart.None? || (arch >= NvArch50 && sifcOk)
  {
  }

  /** A column whose byte offset fits 16 bits fits them itself. */
  lemma ColumnFits(x: nat, cpp: nat)
    requires cpp >= 1 && x * cpp < U16
    ensures x < U16
  {
    MulLe(1, cpp, x);
  }

  /** The small upload succeeded through the command stream: by IFC before
      NV50, by SIFC (whose verdict `sifcOk` is an input) from NV50 on. */
  predicate HostdataDone(arch: nat, pix: Pixmap, sifcOk: bool, w: nat, h: nat)
  {
    Hostdata(w, h, pix.Cpp()) &&
    (if arch < NvArch50 then Nv04Exa.IfcAccepted(arch, pix, w, h, pix.Cpp()) else sifcOk)
  }

  /** `nouveau_exa_upload_to_screen`: a small upload is first pushed
      through the command stream; then, with a GART, the M2MF upload is
      tried; if both fail the pixmap's buffer is mapped (on failure return
      FALSE) and the rectangle copied in with the CPU. Packets of M2MF
      chunks that completed before a failure stay in the channel. */
  function UploadToScreen(st: Nv04Exa.Nv04, arch: nat, pix: Pixmap, gart: Option<nat>,
                          envs: seq<ChunkEnv>, gartMem: seq<int>, sifcOk: bool, mapOk: bool,
                          surf: seq<int>, src: seq<int>, srcPitch: nat,
                          x: nat, y: nat, w: nat, h: nat, pad: seq<int>): (r: Uploaded)
    requires UploadArgs(st, arch, pix, gart, envs, gartMem, sifcOk, surf, src, srcPitch, x, y, w, h, pad)
    ensures r.st.Valid() && |r.surf| == |surf|
    ensures r.ok <==> r.path != Refused
    ensures r.path == ByIfc <==> Hostdata(w, h, pix.Cpp()) && Nv04Exa.IfcAccepted(arch, pix, w, h, pix.Cpp())
    ensures r.path == BySifc <==> Hostdata(w, h, pix.Cpp()) && arch >= NvArch50 && sifcOk
    ensures r.path == ByM2mf <==>
              !HostdataDone(arch, pix, sifcOk, w, h) && gart.Some? &&
              UploadM2mf(XferOf(arch, pix, x, w), gart.value, y, h, envs, st.ch, gartMem, src, srcPitch).ok
    ensures r.ok <==>
              HostdataDone(arch, pix, sifcOk, w, h) || r.path == ByM2mf || mapOk
    ensures r.path == ByMap ==> forall k :: 0 <= k < h ==>
              Row(r.surf, MapStart(pix, x, y), pix.pitch, k, w * pix.Cpp()) == Row(src, 0, srcPitch, k, w * pix.Cpp())
    ensures OnlyRect(surf, r.surf, MapStart(pix, x, y), pix.pitch, w * pix.Cpp(), h)
    ensures r.path != ByMap ==> r.surf == surf
  {
    var cpp := pix.Cpp();
    ColumnFits(x, cpp);
    if Hostdata(w, h, cpp) && arch < NvArch50 && Nv04Exa.IfcAccepted(arch, pix, w, h, cpp) then
      var ifc := Nv04Exa.UploadIfc(st, arch, src, 0, srcPitch, pix, x, y, w, h, cpp, pad);
      Uploaded(true, ByIfc, ifc.st, surf, gartMem)
    else if Hostdata(w, h, cpp) && arch >= NvArch50 && sifcOk then
      Uploaded(true, BySifc, st, surf, gartMem)
    else
      UploadFallback(st, arch, pix, gart, envs, gartMem, sifcOk, mapOk, surf, src, srcPitch, x, y, w, h, pad)
  }

  /** The part of the upload after the hostdata attempt: M2MF through the
      GART, then the mapped CPU copy. */
  function UploadFallback(st: Nv04Exa.Nv04, arch: nat, pix: Pixmap, gart: Option<nat>,
                          envs: seq<ChunkEnv>, gartMem: seq<int>, sifcOk: bool, mapOk: bool,
                          surf: seq<int>, src: seq<int>, srcPitch: nat,
                          x: nat, y: nat, w: nat, h: nat, pad: seq<int>): (r: Uploaded)
    requires UploadArgs(st, arch, pix, gart, envs, gartMem, sifcOk, surf, src, srcPitch, x, y, w, h, pad)
    requires !HostdataDone(arch, pix, sifcOk, w, h)
    ensures r.st.Valid() && r.st.ops == st.ops && r.st.currentRop == st.currentRop
    ensures r.path == ByM2mf || r.path == ByMap || r.path == Refused
    ensures r.path == ByM2mf <==>
              gart.Some? && UploadM2mf(XferOf(arch, pix, x, w), gart.value, y, h, envs, st.ch, gartMem, src, srcPitch).ok
    ensures r.ok <==> r.path == ByM2mf || mapOk
    ensures r.ok <==> r.path != Refused
    ensures r.path == ByMap ==> forall k :: 0 <= k < h ==>
              Row(r.surf, MapStart(pix, x, y), pix.pitch, k, w * pix.Cpp()) == Row(src, 0, srcPitch, k, w * pix.Cpp())
    ensures OnlyRect(surf, r.surf, MapStart(pix, x, y), pix.pitch, w * pix.Cpp(), h)
    ensures r.path != ByMap ==> r.surf == surf
  {
    var t := XferOf(arch, pix, x, w);
    var m := if gart.Some? then UploadM2mf(t, gart.value, y, h, envs, st.ch, gartMem, src, srcPitch)
             else Outcome(false, st.ch, gartMem, [], 0, []);
    var st1 := st.(ch := m.ch);
    if m.ok then Uploaded(true, ByM2mf, st1, surf, m.mem)
    else if !mapOk then Uploaded(false, Refused, st1, surf, m.mem)
    else
      var d := MemcpyRect(surf, MapStart(pix, x, y), pix.pitch, src, 0, srcPitch, t.lineLen, h);
      Uploaded(true, ByMap, st1, d, m.mem)
  }

  /** An upload carried out by IFC pushes one packet per source line after
      the clip rectangle, the operation and the placement, packet `4 + i`
      carrying source row `i`: in full for every whole line, and for the
      padded last line unless the pixels are 16-bit and the width is 3
      modulo 4, where its last two pixels are replaced by stack bytes. No
      flush handler is left armed. */
  lemma UploadByIfcPushesLines(st: Nv04Exa.Nv04, arch: nat, pix: Pixmap, gart: Option<nat>,
                               envs: seq<ChunkEnv>, gartMem: seq<int>, sifcOk: bool, mapOk: bool,
                               surf: seq<int>, src: seq<int>, srcPitch: nat,
                               x: nat, y: nat, w: nat, h: nat, pad: seq<int>)
    requires UploadArgs(st, arch, pix, gart, envs, gartMem, sifcOk, surf, src, srcPitch, x, y, w, h, pad)
    ensures var r := UploadToScreen(st, arch, pix, gart, envs, gartMem, sifcOk, mapOk, surf, src, srcPitch,
                                    x, y, w, h, pad);
      r.path == ByIfc ==>
        var s := Nv04Exa.Shape(w, pix.Cpp());
        Nv04Exa.Extends(st, r.st) && |Nv04Exa.Emitted(st, r.st)| == 4 + h &&
        r.st.ch.notify == NoNotify && r.st.ch.fired == st.ch.fired &&
        Nv04Exa.BodyAsWritten(Nv04Exa.Emitted(st, r.st)[4..], src, 0, srcPitch, s, h, pad) &&
        (pix.Cpp() != 2 || w % 4 != 3 ==>
          forall i :: 0 <= i < h ==>
            Nv04Exa.LineDelivered(Nv04Exa.Emitted(st, r.st)[4..], i, src, 0, srcPitch, w * pix.Cpp(), s.id))
  {
    var r := UploadToScreen(st, arch, pix, gart, envs, gartMem, sifcOk, mapOk, surf, src, srcPitch,
                            x, y, w, h, pad);
    if r.path == ByIfc {
      var s := Nv04Exa.Shape(w, pix.Cpp());
      Nv04Exa.TwoBytePadding(w, pix.Cpp());
      if pix.Cpp() != 2 || w % 4 != 3 {
        Nv04Exa.BodyAsWrittenDeliversAll(Nv04Exa.Emitted(st, r.st)[4..], src, 0, srcPitch, s, h, pad);
      }
    }
  }

  /** An upload carried out by M2MF leaves every planned chunk's packets in
      the channel, in order, and fires the channel once per chunk. */
  lemma UploadByM2mfStands(st: Nv04Exa.Nv04, arch: nat, pix: Pixmap, gart: Option<nat>,
                           envs: seq<ChunkEnv>, gartMem: seq<int>, sifcOk: bool, mapOk: bool,
                           surf: seq<int>, src: seq<int>, srcPitch: nat,
                           x: nat, y: nat, w: nat, h: nat, pad: seq<int>)
    requires UploadArgs(st, arch, pix, gart, envs, gartMem, sifcOk, surf, src, srcPitch, x, y, w, h, pad)
    ensures var r := UploadToScreen(st, arch, pix, gart, envs, gartMem, sifcOk, mapOk, surf, src, srcPitch,
                                    x, y, w, h, pad);
      r.path == ByM2mf ==>
        var cs := PlanOf(XferOf(arch, pix, x, w), gart.value, y, h);
        r.st.ch.packets == st.ch.packets + AllPackets(Upload, XferOf(arch, pix, x, w), cs) &&
        r.st.ch.fired == st.ch.fired + |cs| && r.st.ops == st.ops
  {
  }
}
