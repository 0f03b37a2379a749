/** The CPU copies of `nv_video.c` that move a client image into the
    overlay's buffer: `NVMoveDWORDS`, the row loops of `NVCopyData422` and
    `NVCopyDataRGB`, and `NVCopyData420`, which interleaves a planar 4:2:0
    image into packed 4:2:2 words. Memories are byte sequences; a 32-bit
    store writes its four bytes least significant first. */
module VideoCopy {
  import opened CArith
  import opened MemCopy

  /** A byte of a client image or of video memory. */
  type Byte = x: int | 0 <= x < 256

  // ---------------------------------------------------------------------
  // Rows pasted at a pitch

  /** `memcpy(m + d, data, |data|)`; the same memory as `MemCopy.Splice`,
      whose cell-by-cell contract `PutCells` gives back where needed. */
  function Put(m: seq<Byte>, d: nat, data: seq<Byte>): (r: seq<Byte>)
    requires d + |data| <= |m|
    ensures |r| == |m|
  {
    m[..d] + data + m[d + |data|..]
  }

  /** The data lands at `d` and every other cell keeps its value. */
  lemma PutCells(m: seq<Byte>, d: nat, data: seq<Byte>)
    requires d + |data| <= |m|
    ensures Put(m, d, data) == Splice(m, d, data)
    ensures Put(m, d, data)[d..d + |data|] == data
    ensures forall j :: 0 <= j < |m| && !(d <= j < d + |data|) ==> Put(m, d, data)[j] == m[j]
  {
  }

  /** Every row is `len` cells long. */
  predicate RowsOf(rows: seq<seq<Byte>>, len: nat)
  {
    forall k :: 0 <= k < |rows| ==> |rows[k]| == len
  }

  /** The first `j` rows written one after another, row `k` from
      `off + k * pitch`: what a loop that advances the destination by
      `pitch` per row leaves behind after `j` passes. */
  function PasteRows(dst: seq<Byte>, off: nat, pitch: nat, len: nat, rows: seq<seq<Byte>>, j: nat)
    : (r: seq<Byte>)
    requires len <= pitch && RowsOf(rows, len) && Fits(|dst|, off, pitch, len, |rows|) && j <= |rows|
    ensures |r| == |dst|
    decreases j
  {
    if j == 0 then dst
    else
      RowFits(|dst|, off, pitch, len, |rows|, j - 1);
      Put(PasteRows(dst, off, pitch, len, rows, j - 1), off + (j - 1) * pitch, rows[j - 1])
  }

  /** `r` is `dst` after the first `j` passes of a row loop pasting
      `rows`, each `len` bytes, at `off` with the given pitch. */
  predicate RowsPasted(r: seq<Byte>, dst: seq<Byte>, off: nat, pitch: nat, len: nat, rows: seq<seq<Byte>>, j: nat)
  {
    len <= pitch && RowsOf(rows, len) && Fits(|dst|, off, pitch, len, |rows|) && j <= |rows| &&
    r == PasteRows(dst, off, pitch, len, rows, j)
  }

  /** `r` holds row `k < j` of `rows` at `off + k * pitch` and is `dst`
      everywhere else. */
  predicate Pasted(r: seq<Byte>, dst: seq<Byte>, off: nat, pitch: nat, len: nat, rows: seq<seq<Byte>>, j: nat)
    requires pitch > 0 && j <= |rows|
  {
    |r| == |dst| &&
    (forall k :: 0 <= k < j ==> Row(r, off, pitch, k, len) == rows[k]) &&
    (forall i :: 0 <= i < |dst| && !InRect(i, off, pitch, len, j) ==> r[i] == dst[i])
  }

  /** Pasting puts each row where it belongs and touches nothing else. */
  lemma {:induction false} PasteRowsPlaces(dst: seq<Byte>, off: nat, pitch: nat, len: nat,
                                           rows: seq<seq<Byte>>, j: nat)
    requires pitch > 0 && len <= pitch && RowsOf(rows, len) && Fits(|dst|, off, pitch, len, |rows|)
    requires j <= |rows|
    ensures Pasted(PasteRows(dst, off, pitch, len, rows, j), dst, off, pitch, len, rows, j)
    decreases j
  {
    if j > 0 {
      var k := j - 1;
      PasteRowsPlaces(dst, off, pitch, len, rows, k);
      var p := PasteRows(dst, off, pitch, len, rows, k);
      var o := off + k * pitch;
      RowFits(|dst|, off, pitch, len, |rows|, k);
      var r := Put(p, o, rows[k]);
      assert r == PasteRows(dst, off, pitch, len, rows, j);
      PutCells(p, o, rows[k]);
      forall m | 0 <= m < j
        ensures Row(r, off, pitch, m, len) == rows[m]
      {
        if m < k {
          RowBeforePut(p, r, o, rows[k], off, pitch, len, m, k);
        }
      }
      forall i | 0 <= i < |dst| && !InRect(i, off, pitch, len, j)
        ensures r[i] == dst[i]
      {
        if o <= i < o + len {
          InRectAt(off, pitch, len, j, k, i - o);
        }
        assert !InRect(i, off, pitch, len, k);
      }
    }
  }

  /** One more pass of the row loop puts row `j` one pitch further on. */
  lemma PasteNext(dst: seq<Byte>, off: nat, pitch: nat, len: nat, rows: seq<seq<Byte>>, j: nat)
    requires len <= pitch && RowsOf(rows, len) && Fits(|dst|, off, pitch, len, |rows|) && j < |rows|
    ensures off + j * pitch + len <= |dst|
    ensures PasteRows(dst, off, pitch, len, rows, j + 1) ==
            Put(PasteRows(dst, off, pitch, len, rows, j), off + j * pitch, rows[j])
  {
    RowFits(|dst|, off, pitch, len, |rows|, j);
  }

  /** A put at row `k` leaves the earlier rows as they were. */
  lemma RowBeforePut(p: seq<Byte>, r: seq<Byte>, o: nat, data: seq<Byte>, off: nat, pitch: nat, len: nat,
                     m: nat, k: nat)
    requires o + |data| <= |p| && r == Put(p, o, data)
    requires m < k && len <= pitch && o == off + k * pitch
    ensures Row(r, off, pitch, m, len) == Row(p, off, pitch, m, len)
  {
    MulLe(m + 1, k, pitch);
    var s := off + m * pitch;
    if s + len <= |p| {
      assert r[s..s + len] == p[s..s + len];
    }
  }

  /** The rows of the rectangle at `base` in `src`. */
  function SrcRows(src: seq<Byte>, base: nat, pitch: nat, len: nat, h: nat): (rows: seq<seq<Byte>>)
    requires Fits(|src|, base, pitch, len, h)
    ensures |rows| == h && RowsOf(rows, len)
  {
    seq(h, k requires 0 <= k < h => RowAt(src, base, pitch, len, h, k))
  }

  /** Row `k` of a rectangle that fits. */
  function RowAt(src: seq<Byte>, base: nat, pitch: nat, len: nat, h: nat, k: nat): (row: seq<Byte>)
    requires Fits(|src|, base, pitch, len, h) && k < h
    ensures |row| == len && row == Row(src, base, pitch, k, len)
  {
    RowFits(|src|, base, pitch, len, h, k);
    src[base + k * pitch..base + k * pitch + len]
  }

  /** Pasting the rows of a source rectangle is `NVAccelMemcpyRect`'s
      rectangle copy. */
  lemma PasteIsMemcpyRect(dst: seq<Byte>, dOff: nat, dPitch: nat,
                          src: seq<Byte>, sOff: nat, sPitch: nat, len: nat, h: nat)
    requires dPitch > 0 && len <= dPitch
    requires Fits(|dst|, dOff, dPitch, len, h) && Fits(|src|, sOff, sPitch, len, h)
    ensures PasteRows(dst, dOff, dPitch, len, SrcRows(src, sOff, sPitch, len, h), h)
            == MemcpyRect(dst, dOff, dPitch, src, sOff, sPitch, len, h)
  {
    var rows := SrcRows(src, sOff, sPitch, len, h);
    var r1 := PasteRows(dst, dOff, dPitch, len, rows, h);
    var r2 := MemcpyRect(dst, dOff, dPitch, src, sOff, sPitch, len, h);
    PasteRowsPlaces(dst, dOff, dPitch, len, rows, h);
    assert forall k :: 0 <= k < h ==> rows[k] == Row(src, sOff, sPitch, k, len);
    RectCopyDetermined(r1, r2, dst, dOff, dPitch, src, sOff, sPitch, len, h);
  }

  /** Putting `a` and then `b` right after it is putting `a + b`. */
  lemma PutAppend(m: seq<Byte>, d: nat, a: seq<Byte>, b: seq<Byte>)
    requires d + |a| + |b| <= |m|
    ensures Put(Put(m, d, a), d + |a|, b) == Put(m, d, a + b)
  {
    var m1 := Put(m, d, a);
    assert m1[..d + |a|] == m[..d] + a;
    assert m1[d + |a| + |b|..] == m[d + |a| + |b|..];
  }

  // ---------------------------------------------------------------------
  // NVMoveDWORDS and the packed copies

  /** `*dest = *src` on 32-bit words: four bytes. */
  function CopyDword(m: seq<Byte>, d: nat, src: seq<Byte>, s: nat): (r: seq<Byte>)
    requires d + 4 <= |m| && s + 4 <= |src|
    ensures |r| == |m|
  {
    Put(m, d, src[s..s + 4])
  }

  /** Copying word `k` after the first `k` extends the copied block by one
      word. */
  lemma DwordStep(dst: seq<Byte>, d: nat, src: seq<Byte>, s: nat, k: nat, r: seq<Byte>)
    requires d + 4 * k + 4 <= |dst| && s + 4 * k + 4 <= |src|
    requires r == Put(dst, d, src[s..s + 4 * k])
    ensures CopyDword(r, d + 4 * k, src, s + 4 * k) == Put(dst, d, src[s..s + 4 * (k + 1)])
  {
    PutAppend(dst, d, src[s..s + 4 * k], src[s + 4 * k..s + 4 * k + 4]);
    assert src[s..s + 4 * k] + src[s + 4 * k..s + 4 * k + 4] == src[s..s + 4 * (k + 1)];
  }

  /** One `*dst++ = *src++` of `NVMoveDWORDS` after `k` words. */
  method StoreDword(dst: seq<Byte>, d: nat, src: seq<Byte>, s: nat, k: nat, r0: seq<Byte>)
    returns (r: seq<Byte>)
    requires d + 4 * k + 4 <= |dst| && s + 4 * k + 4 <= |src|
    requires r0 == Put(dst, d, src[s..s + 4 * k])
    ensures r == Put(dst, d, src[s..s + 4 * (k + 1)])
  {
    DwordStep(dst, d, src, s, k, r0);
    r := CopyDword(r0, d + 4 * k, src, s + 4 * k);
  }

  /** `NVMoveDWORDS`: `n` words copied, four at a time while at least four
      remain, then the last one to three one by one. */
  method MoveDwords(dst: seq<Byte>, d: nat, src: seq<Byte>, s: nat, n: nat) returns (r: seq<Byte>)
    requires d + 4 * n <= |dst| && s + 4 * n <= |src|
    ensures r == Put(dst, d, src[s..s + 4 * n])
  {
    r := dst;
    var k := 0;
    assert src[s..s] == [];
    while n - k >= 4
      invariant k <= n && r == Put(dst, d, src[s..s + 4 * k])
      decreases n - k
    {
      r := MoveFourDwords(dst, d, src, s, k, r);
      k := k + 4;
    }
    r := MoveLastDwords(dst, d, src, s, k, n, r);
  }

  /** The unrolled body of `NVMoveDWORDS`' loop: words `k` to `k + 3`. */
  method MoveFourDwords(dst: seq<Byte>, d: nat, src: seq<Byte>, s: nat, k: nat, r0: seq<Byte>)
    returns (r: seq<Byte>)
    requires d + 4 * k + 16 <= |dst| && s + 4 * k + 16 <= |src|
    requires r0 == Put(dst, d, src[s..s + 4 * k])
    ensures r == Put(dst, d, src[s..s + 4 * (k + 4)])
  {
    r := StoreDword(dst, d, src, s, k, r0);
    r := StoreDword(dst, d, src, s, k + 1, r);
    r := StoreDword(dst, d, src, s, k + 2, r);
    r := StoreDword(dst, d, src, s, k + 3, r);
  }

  /** The `switch` after `NVMoveDWORDS`' loop: the last zero to three
      words. */
  method MoveLastDwords(dst: seq<Byte>, d: nat, src: seq<Byte>, s: nat, k: nat, n: nat, r0: seq<Byte>)
    returns (r: seq<Byte>)
    requires k <= n < k + 4 && d + 4 * n <= |dst| && s + 4 * n <= |src|
    requires r0 == Put(dst, d, src[s..s + 4 * k])
    ensures r == Put(dst, d, src[s..s + 4 * n])
  {
    r := r0;
    if k == n {
      return;
    }
    r := StoreDword(dst, d, src, s, k, r);
    if k + 1 == n {
      return;
    }
    r := StoreDword(dst, d, src, s, k + 1, r);
    if k + 2 == n {
      return;
    }
    r := StoreDword(dst, d, src, s, k + 2, r);
  }

  /** The `while (h--)` loop shared by `NVCopyData422` and
      `NVCopyDataRGB`: `n` words per row, both pointers advancing by their
      pitch. It is the rectangle copy of `4 * n` bytes by `h` rows. */
  method MoveRows(src: seq<Byte>, sOff: nat, sPitch: nat, dst: seq<Byte>, dOff: nat, dPitch: nat,
                  h: nat, n: nat) returns (r: seq<Byte>)
    requires dPitch > 0 && 4 * n <= dPitch
    requires Fits(|dst|, dOff, dPitch, 4 * n, h) && Fits(|src|, sOff, sPitch, 4 * n, h)
    ensures r == MemcpyRect(dst, dOff, dPitch, src, sOff, sPitch, 4 * n, h)
  {
    ghost var rows := SrcRows(src, sOff, sPitch, 4 * n, h);
    r := dst;
    var s, d := sOff, dOff;
    var j := 0;
    while j < h
      invariant j <= h && s == sOff + j * sPitch && d == dOff + j * dPitch
      invariant RowsPasted(r, dst, dOff, dPitch, 4 * n, rows, j)
    {
      r := MoveRow(src, sOff, sPitch, dst, dOff, dPitch, h, n, rows, j, r);
      RowStartStep(sOff, sPitch, j);
      RowStartStep(dOff, dPitch, j);
      s, d := s + sPitch, d + dPitch;
      j := j + 1;
    }
    PasteIsMemcpyRect(dst, dOff, dPitch, src, sOff, sPitch, 4 * n, h);
  }

  /** One pass of the row loop: row `j` moved by `NVMoveDWORDS`. */
  method MoveRow(src: seq<Byte>, sOff: nat, sPitch: nat, dst: seq<Byte>, dOff: nat, dPitch: nat,
                 h: nat, n: nat, ghost rows: seq<seq<Byte>>, j: nat, r0: seq<Byte>) returns (r: seq<Byte>)
    requires dPitch > 0 && 4 * n <= dPitch && j < h
    requires Fits(|dst|, dOff, dPitch, 4 * n, h) && Fits(|src|, sOff, sPitch, 4 * n, h)
    requires rows == SrcRows(src, sOff, sPitch, 4 * n, h)
    requires RowsPasted(r0, dst, dOff, dPitch, 4 * n, rows, j)
    ensures RowsPasted(r, dst, dOff, dPitch, 4 * n, rows, j + 1)
  {
    RowFits(|src|, sOff, sPitch, 4 * n, h, j);
    RowFits(|dst|, dOff, dPitch, 4 * n, h, j);
    var s := Offset(sOff, sPitch, j);
    SrcRowAt(src, sOff, sPitch, 4 * n, h, rows, j);
    r := MoveDwords(r0, Offset(dOff, dPitch, j), src, s, n);
    PasteStep(r0, dst, dOff, dPitch, 4 * n, rows, j, src[s..s + 4 * n], r);
  }

  /** Row `j` of a source rectangle is the slice at its start. */
  lemma SrcRowAt(src: seq<Byte>, base: nat, pitch: nat, len: nat, h: nat, rows: seq<seq<Byte>>, j: nat)
    requires Fits(|src|, base, pitch, len, h) && j < h && rows == SrcRows(src, base, pitch, len, h)
    ensures base + j * pitch + len <= |src| && rows[j] == src[base + j * pitch..base + j * pitch + len]
  {
  }

  /** Putting row `j` where it belongs after `j` pasted rows is `j + 1`
      pasted rows. */
  lemma PasteStep(r0: seq<Byte>, dst: seq<Byte>, off: nat, pitch: nat, len: nat, rows: seq<seq<Byte>>,
                  j: nat, row: seq<Byte>, r: seq<Byte>)
    requires RowsPasted(r0, dst, off, pitch, len, rows, j) && j < |rows| && row == rows[j]
    requires off + j * pitch + len <= |r0| && r == Put(r0, off + j * pitch, row)
    ensures RowsPasted(r, dst, off, pitch, len, rows, j + 1)
  {
    PasteNext(dst, off, pitch, len, rows, j);
  }

  /** `NVCopyData422`: a packed 4:2:2 image of `w` pixels per line moves
      as `w / 2` words per line. */
  method CopyData422(src: seq<Byte>, sOff: nat, dst: seq<Byte>, dOff: nat,
                     sPitch: nat, dPitch: nat, h: nat, w: nat) returns (r: seq<Byte>)
    requires dPitch > 0 && 2 * w <= dPitch
    requires Fits(|dst|, dOff, dPitch, 2 * w, h) && Fits(|src|, sOff, sPitch, 2 * w, h)
    ensures r == MemcpyRect(dst, dOff, dPitch, src, sOff, sPitch, 4 * (w / 2), h)
  {
    FitsNarrower(|dst|, dOff, dPitch, 2 * w, 4 * (w / 2), h);
    FitsNarrower(|src|, sOff, sPitch, 2 * w, 4 * (w / 2), h);
    r := MoveRows(src, sOff, sPitch, dst, dOff, dPitch, h, w / 2);
  }

  /** `NVCopyDataRGB` (little-endian): one word per pixel. */
  method CopyDataRgb(src: seq<Byte>, sOff: nat, dst: seq<Byte>, dOff: nat,
                     sPitch: nat, dPitch: nat, h: nat, w: nat) returns (r: seq<Byte>)
    requires dPitch > 0 && 4 * w <= dPitch
    requires Fits(|dst|, dOff, dPitch, 4 * w, h) && Fits(|src|, sOff, sPitch, 4 * w, h)
    ensures r == MemcpyRect(dst, dOff, dPitch, src, sOff, sPitch, 4 * w, h)
  {
    r := MoveRows(src, sOff, sPitch, dst, dOff, dPitch, h, w);
  }

  /** A rectangle that fits still fits with shorter rows. */
  lemma FitsNarrower(size: nat, base: nat, pitch: nat, len: nat, len2: nat, h: nat)
    requires Fits(size, base, pitch, len, h) && len2 <= len
    ensures Fits(size, base, pitch, len2, h)
  {
  }

  // ---------------------------------------------------------------------
  // NVCopyData420

  /** The word `NVCopyData420` stores for two luma samples and the chroma
      pair between them: the OR of `y0`, `u << 8`, `y1 << 16` and
      `v << 24`, whose byte lanes do not overlap, so the OR is a sum. */
  function PackYuy2(y0: Byte, u: Byte, y1: Byte, v: Byte): (w: int)
    ensures IsWord(w)
  {
    y0 + u * 0x100 + y1 * 0x1_0000 + v * 0x100_0000
  }

  /** The four bytes a little-endian 32-bit store writes. */
  function LeBytes(w: int): (b: seq<Byte>)
    requires IsWord(w)
    ensures |b| == 4
  {
    DivBounds(w, 0x100_0000);
    [w % 0x100, (w / 0x100) % 0x100, (w / 0x1_0000) % 0x100, w / 0x100_0000]
  }

  /** The packed word lands in memory as Y0 U Y1 V, the YUY2 order. */
  lemma PackYuy2Bytes(y0: Byte, u: Byte, y1: Byte, v: Byte)
    ensures LeBytes(PackYuy2(y0, u, y1, v)) == [y0, u, y1, v]
  {
    var w := PackYuy2(y0, u, y1, v);
    var c := y1 + v * 0x100;
    var b := u + c * 0x100;
    assert w == y0 + b * 0x100;
    DivUnique(w, 0x100, b);
    DivUnique(w, 0x1_0000, c);
    DivUnique(w, 0x100_0000, v);
    DivUnique(b, 0x100, c);
    DivUnique(c, 0x100, v);
  }

  /** A byte of `buf`, or 0 outside it: the reference definition reads
      only inside the image, so the value outside never shows. */
  function At(buf: seq<Byte>, i: int): Byte
  {
    if 0 <= i < |buf| then buf[i] else 0
  }

  /** Output pixel pair `k` of a line: luma `2k` and `2k + 1` of the luma
      row at `y`, chroma `k` of the rows at `u` and `v`. */
  function Quad(buf: seq<Byte>, y: int, u: int, v: int, k: nat): seq<Byte>
  {
    [At(buf, y + 2 * k), At(buf, u + k), At(buf, y + 2 * k + 1), At(buf, v + k)]
  }

  /** The packed 4:2:2 line made from `2 * n` luma samples and `n` samples
      of each chroma row. */
  function Line420(buf: seq<Byte>, y: int, u: int, v: int, n: nat): (r: seq<Byte>)
    ensures |r| == 4 * n
  {
    if n == 0 then [] else Line420(buf, y, u, v, n - 1) + Quad(buf, y, u, v, n - 1)
  }

  /** Byte `4k + i` of a line is byte `i` of pixel pair `k`. */
  lemma {:induction false} Line420At(buf: seq<Byte>, y: int, u: int, v: int, n: nat, k: nat)
    requires k < n
    ensures Line420(buf, y, u, v, n)[4 * k..4 * k + 4] == Quad(buf, y, u, v, k)
  {
    if k < n - 1 {
      Line420At(buf, y, u, v, n - 1, k);
      var l := Line420(buf, y, u, v, n - 1);
      assert Line420(buf, y, u, v, n)[4 * k..4 * k + 4] == l[4 * k..4 * k + 4];
    }
  }

  /** The luma samples of a packed 4:2:2 line: bytes 0 and 2 of every
      word. */
  function Lumas(line: seq<Byte>): (r: seq<Byte>)
    requires |line| % 4 == 0
    ensures |r| == |line| / 2
  {
    seq(|line| / 2, i requires 0 <= i < |line| / 2 => line[4 * (i / 2) + 2 * (i % 2)])
  }

  /** The chroma samples at byte `lane` (1 for U, 3 for V) of every word of
      a packed 4:2:2 line. */
  function Chromas(line: seq<Byte>, lane: nat): (r: seq<Byte>)
    requires |line| % 4 == 0 && lane < 4
    ensures |r| == |line| / 4
  {
    seq(|line| / 4, i requires 0 <= i < |line| / 4 => line[4 * i + lane])
  }

  /** Reading the packed line back as YUY2 gives the luma row and the two
      chroma rows it was made from: the interleaving loses nothing. */
  lemma UnpackLine420(buf: seq<Byte>, y: nat, u: nat, v: nat, n: nat)
    requires y + 2 * n <= |buf| && u + n <= |buf| && v + n <= |buf|
    ensures Lumas(Line420(buf, y, u, v, n)) == buf[y..y + 2 * n]
    ensures Chromas(Line420(buf, y, u, v, n), 1) == buf[u..u + n]
    ensures Chromas(Line420(buf, y, u, v, n), 3) == buf[v..v + n]
  {
    UnpackLumas(buf, y, u, v, n);
    UnpackChromas(buf, y, u, v, n);
  }

  /** The luma half of `UnpackLine420`. */
  lemma UnpackLumas(buf: seq<Byte>, y: nat, u: nat, v: nat, n: nat)
    requires y + 2 * n <= |buf| && u + n <= |buf| && v + n <= |buf|
    ensures Lumas(Line420(buf, y, u, v, n)) == buf[y..y + 2 * n]
  {
    var line := Line420(buf, y, u, v, n);
    forall i | 0 <= i < 2 * n
      ensures Lumas(line)[i] == buf[y..y + 2 * n][i]
    {
      LumaAt(buf, y, u, v, n, i);
    }
  }

  /** Luma sample `i` sits in byte `2 * (i % 2)` of word `i / 2`. */
  lemma LumaAt(buf: seq<Byte>, y: nat, u: nat, v: nat, n: nat, i: nat)
    requires y + 2 * n <= |buf| && i < 2 * n
    ensures 4 * (i / 2) + 2 * (i % 2) < 4 * n
    ensures Line420(buf, y, u, v, n)[4 * (i / 2) + 2 * (i % 2)] == buf[y + i]
  {
    var k := i / 2;
    Line420At(buf, y, u, v, n, k);
    assert Line420(buf, y, u, v, n)[4 * k + 2 * (i % 2)] == Quad(buf, y, u, v, k)[2 * (i % 2)];
  }

  /** The chroma half of `UnpackLine420`. */
  lemma UnpackChromas(buf: seq<Byte>, y: nat, u: nat, v: nat, n: nat)
    requires y + 2 * n <= |buf| && u + n <= |buf| && v + n <= |buf|
    ensures Chromas(Line420(buf, y, u, v, n), 1) == buf[u..u + n]
    ensures Chromas(Line420(buf, y, u, v, n), 3) == buf[v..v + n]
  {
    var line := Line420(buf, y, u, v, n);
    forall k | 0 <= k < n
      ensures Chromas(line, 1)[k] == buf[u..u + n][k] && Chromas(line, 3)[k] == buf[v..v + n][k]
    {
      Line420At(buf, y, u, v, n, k);
      assert line[4 * k + 1] == Quad(buf, y, u, v, k)[1];
      assert line[4 * k + 3] == Quad(buf, y, u, v, k)[3];
    }
  }

  /** Storing the packed word of pixel pair `k` extends the line written so
      far by that pair. */
  lemma StoreStep(m: seq<Byte>, d: nat, buf: seq<Byte>, y: nat, u: nat, v: nat, k: nat, r: seq<Byte>)
    requires d + 4 * k + 4 <= |m|
    requires y + 2 * k + 2 <= |buf| && u + k < |buf| && v + k < |buf|
    requires r == Put(m, d, Line420(buf, y, u, v, k))
    ensures Put(r, d + 4 * k, LeBytes(PackYuy2(buf[y + 2 * k], buf[u + k], buf[y + 2 * k + 1], buf[v + k])))
            == Put(m, d, Line420(buf, y, u, v, k + 1))
  {
    PackYuy2Bytes(buf[y + 2 * k], buf[u + k], buf[y + 2 * k + 1], buf[v + k]);
    PutAppend(m, d, Line420(buf, y, u, v, k), Quad(buf, y, u, v, k));
  }

  /** `r` is `m` with the first `k` pixel pairs of a packed line stored
      from `d` on. */
  predicate LineStored(r: seq<Byte>, m: seq<Byte>, d: nat, buf: seq<Byte>, y: nat, u: nat, v: nat, k: nat)
  {
    d + 4 * k <= |m| && r == Put(m, d, Line420(buf, y, u, v, k))
  }

  /** One `*dst++ = ...` of `NVCopyData420`: the packed word of pixel
      pair `k` stored after the first `k`. */
  method StorePair(m: seq<Byte>, d: nat, buf: seq<Byte>, y: nat, u: nat, v: nat, k: nat, r0: seq<Byte>)
    returns (r: seq<Byte>)
    requires d + 4 * k + 4 <= |m|
    requires y + 2 * k + 2 <= |buf| && u + k < |buf| && v + k < |buf|
    requires LineStored(r0, m, d, buf, y, u, v, k)
    ensures LineStored(r, m, d, buf, y, u, v, k + 1)
  {
    StoreStep(m, d, buf, y, u, v, k, r0);
    r := Put(r0, d + 4 * k, LeBytes(PackYuy2(buf[y + 2 * k], buf[u + k], buf[y + 2 * k + 1], buf[v + k])));
  }

  /** One line of `NVCopyData420`: four words at a time while more than
      four remain, then one at a time. */
  method PackLine(m: seq<Byte>, d: nat, buf: seq<Byte>, y: nat, u: nat, v: nat, n: nat)
    returns (r: seq<Byte>)
    requires d + 4 * n <= |m| && y + 2 * n <= |buf| && u + n <= |buf| && v + n <= |buf|
    ensures r == Put(m, d, Line420(buf, y, u, v, n))
  {
    r := m;
    var k := 0;
    assert Line420(buf, y, u, v, 0) == [];
    while n - k > 4
      invariant k <= n && LineStored(r, m, d, buf, y, u, v, k)
      decreases n - k
    {
      r := StorePair(m, d, buf, y, u, v, k, r);
      r := StorePair(m, d, buf, y, u, v, k + 1, r);
      r := StorePair(m, d, buf, y, u, v, k + 2, r);
      r := StorePair(m, d, buf, y, u, v, k + 3, r);
      k := k + 4;
    }
    while k < n
      invariant k <= n && LineStored(r, m, d, buf, y, u, v, k)
    {
      r := StorePair(m, d, buf, y, u, v, k, r);
      k := k + 1;
    }
  }

  /** The packed lines of a planar image: line `j` from luma row `j` and
      chroma row `j / 2`. */
  function Lines420(buf: seq<Byte>, y: nat, yPitch: nat, u: nat, v: nat, cPitch: nat, n: nat, h: nat)
    : (rows: seq<seq<Byte>>)
    ensures |rows| == h && RowsOf(rows, 4 * n)
  {
    seq(h, j requires 0 <= j < h => Line420(buf, Offset(y, yPitch, j), Offset(u, cPitch, j / 2), Offset(v, cPitch, j / 2), n))
  }

  /** The next row starts one pitch further on. */
  lemma OffsetNext(base: nat, pitch: nat, k: nat)
    ensures Offset(base, pitch, k + 1) == Offset(base, pitch, k) + pitch
  {
    RowStartStep(base, pitch, k);
  }

  /** A plane read at half the line rate moves on after every odd line. */
  lemma OffsetHalfNext(base: nat, pitch: nat, j: nat)
    ensures Offset(base, pitch, (j + 1) / 2) ==
            if j % 2 == 1 then Offset(base, pitch, j / 2) + pitch else Offset(base, pitch, j / 2)
  {
    if j % 2 == 1 {
      assert (j + 1) / 2 == j / 2 + 1;
      RowStartStep(base, pitch, j / 2);
    } else {
      assert (j + 1) / 2 == j / 2;
    }
  }

  /** The four pointers of `NVCopyData420` before line `j`: destination
      and luma one pitch per line, V and U one chroma pitch per two lines. */
  predicate Pointers420(j: nat, d: nat, s1: nat, s2: nat, s3: nat, dOff: nat, dPitch: nat,
                        y: nat, yPitch: nat, v: nat, u: nat, cPitch: nat)
  {
    d == Offset(dOff, dPitch, j) && s1 == Offset(y, yPitch, j) &&
    s2 == Offset(v, cPitch, j / 2) && s3 == Offset(u, cPitch, j / 2)
  }

  /** The pointer updates at the end of a line keep them in step. */
  lemma PointersNext(j: nat, d: nat, s1: nat, s2: nat, s3: nat, dOff: nat, dPitch: nat,
                     y: nat, yPitch: nat, v: nat, u: nat, cPitch: nat)
    requires Pointers420(j, d, s1, s2, s3, dOff, dPitch, y, yPitch, v, u, cPitch)
    ensures j % 2 == 1 ==>
              Pointers420(j + 1, d + dPitch, s1 + yPitch, s2 + cPitch, s3 + cPitch, dOff, dPitch, y, yPitch, v, u, cPitch)
    ensures j % 2 == 0 ==>
              Pointers420(j + 1, d + dPitch, s1 + yPitch, s2, s3, dOff, dPitch, y, yPitch, v, u, cPitch)
  {
    OffsetNext(dOff, dPitch, j);
    OffsetNext(y, yPitch, j);
    OffsetHalfNext(v, cPitch, j);
    OffsetHalfNext(u, cPitch, j);
  }

  /** `NVCopyData420` (little-endian): `h` lines of `w` pixels from the
      luma plane at `y` and the chroma planes at `u` and `v`, whose
      pointers advance after every odd line, packed into 4:2:2 words. */
  method CopyData420(buf: seq<Byte>, y: nat, v: nat, u: nat, dst: seq<Byte>, dOff: nat,
                     srcPitch: nat, srcPitch2: nat, dstPitch: nat, h: nat, w: nat)
    returns (r: seq<Byte>)
    requires 4 * (w / 2) <= dstPitch
    requires Fits(|dst|, dOff, dstPitch, 4 * (w / 2), h)
    requires Fits(|buf|, y, srcPitch, 2 * (w / 2), h)
    requires Fits(|buf|, u, srcPitch2, w / 2, (h + 1) / 2) && Fits(|buf|, v, srcPitch2, w / 2, (h + 1) / 2)
    ensures r == PasteRows(dst, dOff, dstPitch, 4 * (w / 2),
                           Lines420(buf, y, srcPitch, u, v, srcPitch2, w / 2, h), h)
  {
    var n := w / 2;
    ghost var lines := Lines420(buf, y, srcPitch, u, v, srcPitch2, n, h);
    r := dst;
    var d: nat, s1: nat, s2: nat, s3: nat := dOff, y, v, u;
    var j := 0;
    while j < h
      invariant j <= h && Pointers420(j, d, s1, s2, s3, dOff, dstPitch, y, srcPitch, v, u, srcPitch2)
      invariant RowsPasted(r, dst, dOff, dstPitch, 4 * n, lines, j)
    {
      r := PackRow(buf, y, v, u, dst, dOff, srcPitch, srcPitch2, dstPitch, h, n, lines, j, d, s1, s2, s3, r);
      PointersNext(j, d, s1, s2, s3, dOff, dstPitch, y, srcPitch, v, u, srcPitch2);
      d, s1 := d + dstPitch, s1 + srcPitch;
      if j % 2 == 1 {
        s2, s3 := s2 + srcPitch2, s3 + srcPitch2;
      }
      j := j + 1;
    }
  }

  /** One pass of `NVCopyData420`'s line loop: line `j` packed from the
      pointers `s1` (luma), `s3` (U) and `s2` (V) to `d`. */
  method PackRow(buf: seq<Byte>, y: nat, v: nat, u: nat, dst: seq<Byte>, dOff: nat,
                 srcPitch: nat, srcPitch2: nat, dstPitch: nat, h: nat, n: nat,
                 ghost lines: seq<seq<Byte>>, j: nat, d: nat, s1: nat, s2: nat, s3: nat, r0: seq<Byte>)
    returns (r: seq<Byte>)
    requires 4 * n <= dstPitch && j < h
    requires Fits(|dst|, dOff, dstPitch, 4 * n, h) && Fits(|buf|, y, srcPitch, 2 * n, h)
    requires Fits(|buf|, u, srcPitch2, n, (h + 1) / 2) && Fits(|buf|, v, srcPitch2, n, (h + 1) / 2)
    requires Pointers420(j, d, s1, s2, s3, dOff, dstPitch, y, srcPitch, v, u, srcPitch2)
    requires lines == Lines420(buf, y, srcPitch, u, v, srcPitch2, n, h)
    requires RowsPasted(r0, dst, dOff, dstPitch, 4 * n, lines, j)
    ensures RowsPasted(r, dst, dOff, dstPitch, 4 * n, lines, j + 1)
  {
    PasteNext(dst, dOff, dstPitch, 4 * n, lines, j);
    RowFits(|buf|, y, srcPitch, 2 * n, h, j);
    RowFits(|buf|, u, srcPitch2, n, (h + 1) / 2, j / 2);
    RowFits(|buf|, v, srcPitch2, n, (h + 1) / 2, j / 2);
    assert lines[j] == Line420(buf, s1, s3, s2, n);
    r := PackLine(r0, d, buf, s1, s3, s2, n);
  }

  /** Byte by byte: output line `j`, pixel pair `k` holds luma `2k` and
      `2k + 1` of row `j` and chroma `k` of row `j / 2` of each chroma
      plane, in the order Y0 U Y1 V. */
  lemma CopyData420Pixels(buf: seq<Byte>, y: nat, yPitch: nat, u: nat, v: nat, cPitch: nat,
                          dst: seq<Byte>, dOff: nat, dPitch: nat, n: nat, h: nat,
                          r: seq<Byte>, j: nat, k: nat)
    requires 4 * n <= dPitch && Fits(|dst|, dOff, dPitch, 4 * n, h)
    requires r == PasteRows(dst, dOff, dPitch, 4 * n, Lines420(buf, y, yPitch, u, v, cPitch, n, h), h)
    requires j < h && k < n
    ensures PixelPair(r, Offset(dOff, dPitch, j) + 4 * k, buf,
                      Offset(y, yPitch, j), Offset(u, cPitch, j / 2), Offset(v, cPitch, j / 2), k)
  {
    var lines := Lines420(buf, y, yPitch, u, v, cPitch, n, h);
    LineOf420(buf, y, yPitch, u, v, cPitch, n, h, j, lines[j]);
    PastedLineCells(dst, dOff, dPitch, n, lines, h, r, j, buf,
                    Offset(y, yPitch, j), Offset(u, cPitch, j / 2), Offset(v, cPitch, j / 2), k);
  }

  /** The four bytes at `s` are pixel pair `k` of the rows at `y`, `u`
      and `v`: luma `2k`, chroma U `k`, luma `2k + 1`, chroma V `k`. */
  predicate PixelPair(r: seq<Byte>, s: nat, buf: seq<Byte>, y: int, u: int, v: int, k: nat)
  {
    s + 4 <= |r| &&
    r[s] == At(buf, y + 2 * k) && r[s + 1] == At(buf, u + k) &&
    r[s + 2] == At(buf, y + 2 * k + 1) && r[s + 3] == At(buf, v + k)
  }

  /** Line `j` of a planar image's packed lines. */
  lemma LineOf420(buf: seq<Byte>, y: nat, yPitch: nat, u: nat, v: nat, cPitch: nat, n: nat, h: nat,
                  j: nat, line: seq<Byte>)
    requires j < h && line == Lines420(buf, y, yPitch, u, v, cPitch, n, h)[j]
    ensures line == Line420(buf, Offset(y, yPitch, j), Offset(u, cPitch, j / 2), Offset(v, cPitch, j / 2), n)
  {
  }

  /** Pixel pair `k` of a packed line pasted as row `j`, byte by byte. */
  lemma PastedLineCells(dst: seq<Byte>, dOff: nat, dPitch: nat, n: nat, lines: seq<seq<Byte>>, h: nat,
                        r: seq<Byte>, j: nat, buf: seq<Byte>, yj: int, uj: int, vj: int, k: nat)
    requires 4 * n <= dPitch && Fits(|dst|, dOff, dPitch, 4 * n, h) && |lines| == h && RowsOf(lines, 4 * n)
    requires r == PasteRows(dst, dOff, dPitch, 4 * n, lines, h)
    requires j < h && k < n && lines[j] == Line420(buf, yj, uj, vj, n)
    ensures PixelPair(r, Offset(dOff, dPitch, j) + 4 * k, buf, yj, uj, vj, k)
  {
    PastedCell(dst, dOff, dPitch, 4 * n, lines, h, j, 4 * k);
    PastedCell(dst, dOff, dPitch, 4 * n, lines, h, j, 4 * k + 1);
    PastedCell(dst, dOff, dPitch, 4 * n, lines, h, j, 4 * k + 2);
    PastedCell(dst, dOff, dPitch, 4 * n, lines, h, j, 4 * k + 3);
    Line420Cells(buf, yj, uj, vj, n, k);
  }

  /** Cell `i` of row `j` of a pasted memory. */
  lemma PastedCell(dst: seq<Byte>, off: nat, pitch: nat, len: nat, rows: seq<seq<Byte>>, h: nat, j: nat, i: nat)
    requires len <= pitch && RowsOf(rows, len) && h == |rows| && Fits(|dst|, off, pitch, len, h)
    requires j < h && i < len
    ensures Offset(off, pitch, j) + i < |dst|
    ensures PasteRows(dst, off, pitch, len, rows, h)[Offset(off, pitch, j) + i] == rows[j][i]
  {
    PastedRow(dst, off, pitch, len, rows, h, j);
    var r := PasteRows(dst, off, pitch, len, rows, h);
    var o := Offset(off, pitch, j);
    assert r[o..o + len][i] == r[o + i];
  }

  /** The four bytes of pixel pair `k` of a packed line. */
  lemma Line420Cells(buf: seq<Byte>, y: int, u: int, v: int, n: nat, k: nat)
    requires k < n
    ensures var l := Line420(buf, y, u, v, n);
      l[4 * k] == At(buf, y + 2 * k) && l[4 * k + 1] == At(buf, u + k) &&
      l[4 * k + 2] == At(buf, y + 2 * k + 1) && l[4 * k + 3] == At(buf, v + k)
  {
    Line420At(buf, y, u, v, n, k);
    var l := Line420(buf, y, u, v, n);
    var q := l[4 * k..4 * k + 4];
    assert l[4 * k] == q[0] && l[4 * k + 1] == q[1] && l[4 * k + 2] == q[2] && l[4 * k + 3] == q[3];
  }

  /** One row of a pasted memory. */
  lemma PastedAt(r: seq<Byte>, dst: seq<Byte>, off: nat, pitch: nat, len: nat, rows: seq<seq<Byte>>, h: nat, j: nat)
    requires pitch > 0 && h <= |rows| && j < h && Pasted(r, dst, off, pitch, len, rows, h)
    ensures Row(r, off, pitch, j, len) == rows[j]
  {
  }

  /** Row `j` of the pasted memory, as a slice. */
  lemma PastedRow(dst: seq<Byte>, off: nat, pitch: nat, len: nat, rows: seq<seq<Byte>>, h: nat, j: nat)
    requires pitch > 0 && len <= pitch && RowsOf(rows, len) && h == |rows| && Fits(|dst|, off, pitch, len, h)
    requires j < h
    ensures Offset(off, pitch, j) + len <= |dst|
    ensures PasteRows(dst, off, pitch, len, rows, h)[Offset(off, pitch, j)..Offset(off, pitch, j) + len] == rows[j]
  {
    var r := PasteRows(dst, off, pitch, len, rows, h);
    PasteRowsPlaces(dst, off, pitch, len, rows, h);
    RowFits(|dst|, off, pitch, len, h, j);
    PastedAt(r, dst, off, pitch, len, rows, h, j);
  }
}
