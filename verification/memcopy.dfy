/** Rectangular copies between flat memories with independent pitches
    (`NVAccelMemcpyRect` and the staging-buffer loops of the transfer
    engine). A memory is a sequence of cells; a rectangle is `h` rows of
    `len` cells whose row `k` starts at `base + k * pitch`. */
module MemCopy {
  import opened CArith

  /** Every row of the rectangle lies inside a memory of `size` cells. */
  predicate Fits(size: nat, base: nat, pitch: nat, len: nat, h: nat)
  {
    h == 0 || base + (h - 1) * pitch + len <= size
  }

  /** Row `k` of a rectangle, or `[]` when it does not lie inside `m`. */
  function Row<T>(m: seq<T>, base: nat, pitch: nat, k: nat, len: nat): seq<T>
  {
    var s := base + k * pitch;
    if s + len <= |m| then m[s..s + len] else []
  }

  /** Where row `k` of a rectangle at `base` with the given pitch starts. */
  function Offset(base: nat, pitch: nat, k: nat): nat
  {
    base + k * pitch
  }

  /** Cell `j` belongs to one of the rectangle's rows. */
  predicate InRect(j: int, base: nat, pitch: nat, len: nat, h: nat)
    requires pitch > 0
  {
    j >= base && (j - base) / pitch < h && (j - base) % pitch < len
  }

  /** `memcpy(mem + off, data, |data|)` */
  function Splice<T>(mem: seq<T>, off: nat, data: seq<T>): (r: seq<T>)
    requires off + |data| <= |mem|
    ensures |r| == |mem|
    ensures r[off..off + |data|] == data
    ensures forall j :: 0 <= j < |mem| && !(off <= j < off + |data|) ==> r[j] == mem[j]
  {
    mem[..off] + data + mem[off + |data|..]
  }

  lemma RowStartStep(base: nat, pitch: nat, k: nat)
    ensures base + pitch + k * pitch == base + (k + 1) * pitch
  {
  }

  /** Rows below the last one lie inside a memory the rectangle fits in. */
  lemma RowFits(size: nat, base: nat, pitch: nat, len: nat, h: nat, k: nat)
    requires Fits(size, base, pitch, len, h) && k < h
    ensures base + k * pitch + len <= size
  {
    MulLe(k, h - 1, pitch);
  }

  lemma MulLe(a: nat, b: nat, c: nat)
    requires a <= b
    ensures a * c <= b * c
  {
  }

  /** A rectangle that fits still fits without its first row. */
  lemma FitsTail(size: nat, base: nat, pitch: nat, len: nat, h: nat)
    requires Fits(size, base, pitch, len, h) && h >= 1
    ensures base + len <= size
    ensures Fits(size, base + pitch, pitch, len, h - 1)
  {
    if h >= 2 {
      RowStartStep(base, pitch, h - 2);
    }
  }

  /** Cell `base + k * pitch + i` is cell `i` of row `k`. */
  lemma InRectAt(base: nat, pitch: nat, len: nat, h: nat, k: nat, i: nat)
    requires pitch > 0 && len <= pitch && k < h && i < len
    ensures InRect(base + k * pitch + i, base, pitch, len, h)
    ensures (k * pitch + i) / pitch == k && (k * pitch + i) % pitch == i
  {
    DivUnique(k * pitch + i, pitch, k);
  }

  /** The rectangle without its first row, seen from the original base. */
  lemma InRectShift(j: int, base: nat, pitch: nat, len: nat, h: nat)
    requires pitch > 0 && len <= pitch && h >= 1
    ensures InRect(j, base, pitch, len, h) <==>
              base <= j < base + len || InRect(j, base + pitch, pitch, len, h - 1)
  {
    if j >= base {
      var x := j - base;
      DivBounds(x, pitch);
      var q := x / pitch;
      if x >= pitch {
        DivUnique(x - pitch, pitch, q - 1);
      } else {
        DivUnique(x, pitch, 0);
      }
    }
  }

  /** Copies the rows one at a time, the `while (height--)` loop. */
  function CopyRows<T>(dst: seq<T>, dOff: nat, dPitch: nat,
                       src: seq<T>, sOff: nat, sPitch: nat, len: nat, h: nat): (r: seq<T>)
    requires dPitch > 0 && len <= dPitch
    requires Fits(|dst|, dOff, dPitch, len, h) && Fits(|src|, sOff, sPitch, len, h)
    ensures |r| == |dst|
    ensures forall k :: 0 <= k < h ==>
              |Row(r, dOff, dPitch, k, len)| == len &&
              Row(r, dOff, dPitch, k, len) == Row(src, sOff, sPitch, k, len)
    ensures forall j :: 0 <= j < |dst| && !InRect(j, dOff, dPitch, len, h) ==> r[j] == dst[j]
    decreases h
  {
    if h == 0 then dst
    else
      FitsTail(|dst|, dOff, dPitch, len, h);
      FitsTail(|src|, sOff, sPitch, len, h);
      var d1 := Splice(dst, dOff, src[sOff..sOff + len]);
      var r := CopyRows(d1, dOff + dPitch, dPitch, src, sOff + sPitch, sPitch, len, h - 1);
      CopyRowsStep(dst, dOff, dPitch, src, sOff, sPitch, len, h, d1, r, dOff + dPitch, sOff + sPitch);
      r
  }

  /** The inductive step of `CopyRows`: the first row comes from the
      splice, the others from the copy of the remaining rows, which start
      one pitch further on (`d2`, `s2`). */
  lemma CopyRowsStep<T>(dst: seq<T>, dOff: nat, dPitch: nat,
                        src: seq<T>, sOff: nat, sPitch: nat, len: nat, h: nat,
                        d1: seq<T>, r: seq<T>, d2: nat, s2: nat)
    requires dPitch > 0 && len <= dPitch && h >= 1
    requires d2 == dOff + dPitch && s2 == sOff + sPitch
    requires dOff + len <= |dst| && sOff + len <= |src|
    requires d1 == Splice(dst, dOff, src[sOff..sOff + len])
    requires |r| == |d1|
    requires forall k :: 0 <= k < h - 1 ==>
               |Row(r, d2, dPitch, k, len)| == len &&
               Row(r, d2, dPitch, k, len) == Row(src, s2, sPitch, k, len)
    requires forall j :: 0 <= j < |d1| && !InRect(j, d2, dPitch, len, h - 1) ==> r[j] == d1[j]
    ensures forall k :: 0 <= k < h ==>
              |Row(r, dOff, dPitch, k, len)| == len &&
              Row(r, dOff, dPitch, k, len) == Row(src, sOff, sPitch, k, len)
    ensures forall j :: 0 <= j < |dst| && !InRect(j, dOff, dPitch, len, h) ==> r[j] == dst[j]
  {
    forall k | 0 <= k < h
      ensures |Row(r, dOff, dPitch, k, len)| == len
      ensures Row(r, dOff, dPitch, k, len) == Row(src, sOff, sPitch, k, len)
    {
      if k == 0 {
        forall j | dOff <= j < dOff + len
          ensures r[j] == d1[j]
        {
          assert !InRect(j, d2, dPitch, len, h - 1);
        }
        assert r[dOff..dOff + len] == d1[dOff..dOff + len];
        assert Row(r, dOff, dPitch, 0, len) == r[dOff..dOff + len];
        assert Row(src, sOff, sPitch, 0, len) == src[sOff..sOff + len];
      } else {
        RowStartStep(dOff, dPitch, k - 1);
        RowStartStep(sOff, sPitch, k - 1);
        assert Row(r, d2, dPitch, k - 1, len) == Row(r, dOff, dPitch, k, len);
        assert Row(src, s2, sPitch, k - 1, len) == Row(src, sOff, sPitch, k, len);
      }
    }
    forall j | 0 <= j < |dst| && !InRect(j, dOff, dPitch, len, h)
      ensures r[j] == dst[j]
    {
      InRectShift(j, dOff, dPitch, len, h);
    }
  }

  /** `NVAccelMemcpyRect`: one `memcpy` of the whole block when both
      pitches equal the line length, otherwise one `memcpy` per row. With
      no rows both paths write nothing, so the empty block takes the row
      loop. */
  function MemcpyRect<T>(dst: seq<T>, dOff: nat, dPitch: nat,
                         src: seq<T>, sOff: nat, sPitch: nat, len: nat, h: nat): (r: seq<T>)
    requires dPitch > 0 && len <= dPitch
    requires Fits(|dst|, dOff, dPitch, len, h) && Fits(|src|, sOff, sPitch, len, h)
    ensures |r| == |dst|
    ensures forall k :: 0 <= k < h ==>
              |Row(r, dOff, dPitch, k, len)| == len &&
              Row(r, dOff, dPitch, k, len) == Row(src, sOff, sPitch, k, len)
    ensures forall j :: 0 <= j < |dst| && !InRect(j, dOff, dPitch, len, h) ==> r[j] == dst[j]
  {
    if sPitch == len && sPitch == dPitch && h > 0 then
      var n := len * h;
      FastPathCopies(dst, dOff, src, sOff, len, h, n);
      Splice(dst, dOff, src[sOff..sOff + n])
    else
      CopyRows(dst, dOff, dPitch, src, sOff, sPitch, len, h)
  }

  /** With `pitch == len` the rectangle is the contiguous block of `len * h`
      cells from `base`. */
  lemma ContiguousRect(j: int, base: nat, len: nat, h: nat)
    requires len > 0
    ensures InRect(j, base, len, len, h) <==> base <= j < base + len * h
  {
    if j >= base {
      DivBounds(j - base, len);
      var q := (j - base) / len;
      if q < h {
        MulLe(q + 1, h, len);
      } else {
        MulLe(h, q, len);
      }
    }
  }

  /** The single `memcpy` of the fast path meets the row-by-row contract. */
  lemma FastPathCopies<T>(dst: seq<T>, dOff: nat, src: seq<T>, sOff: nat, len: nat, h: nat, n: nat)
    requires len > 0 && h > 0 && n == len * h
    requires Fits(|dst|, dOff, len, len, h) && Fits(|src|, sOff, len, len, h)
    ensures dOff + n <= |dst| && sOff + n <= |src|
    ensures var r := Splice(dst, dOff, src[sOff..sOff + n]);
      (forall k :: 0 <= k < h ==>
         |Row(r, dOff, len, k, len)| == len &&
         Row(r, dOff, len, k, len) == Row(src, sOff, len, k, len)) &&
      (forall j :: 0 <= j < |dst| && !InRect(j, dOff, len, len, h) ==> r[j] == dst[j])
  {
    FastPathStep(len, h, n);
    var r := Splice(dst, dOff, src[sOff..sOff + n]);
    forall k | 0 <= k < h
      ensures |Row(r, dOff, len, k, len)| == len
      ensures Row(r, dOff, len, k, len) == Row(src, sOff, len, k, len)
    {
      FastPathRow(dst, dOff, src, sOff, len, h, n, r, k);
    }
    forall j | 0 <= j < |dst| && !InRect(j, dOff, len, len, h)
      ensures r[j] == dst[j]
    {
      ContiguousRect(j, dOff, len, h);
    }
  }

  /** Row `k` of the single `memcpy`: the cells `k * len` onwards of the
      block. */
  lemma FastPathRow<T>(dst: seq<T>, dOff: nat, src: seq<T>, sOff: nat, len: nat, h: nat, n: nat,
                       r: seq<T>, k: nat)
    requires k < h && n == len * h && dOff + n <= |dst| && sOff + n <= |src|
    requires r == Splice(dst, dOff, src[sOff..sOff + n])
    ensures |Row(r, dOff, len, k, len)| == len
    ensures Row(r, dOff, len, k, len) == Row(src, sOff, len, k, len)
  {
    MulLe(k + 1, h, len);
    var o := k * len;
    assert o + len <= n;
    SliceOfSlice(r, dOff, n, o, len);
    SliceOfSlice(src, sOff, n, o, len);
    assert r[dOff..dOff + n] == src[sOff..sOff + n];
  }

  /** A slice of a slice is a slice of the whole. */
  lemma SliceOfSlice<T>(s: seq<T>, a: nat, n: nat, o: nat, len: nat)
    requires a + n <= |s| && o + len <= n
    ensures s[a + o..a + o + len] == s[a..a + n][o..o + len]
  {
    var whole, inner := s[a + o..a + o + len], s[a..a + n][o..o + len];
    forall i | 0 <= i < len
      ensures whole[i] == inner[i]
    {
      assert s[a..a + n][o + i] == s[a + o + i];
    }
  }

  /** Cell `i` of a full row is the cell `i` past the row's start. */
  lemma RowCell<T>(m: seq<T>, base: nat, pitch: nat, k: nat, len: nat, i: nat)
    requires |Row(m, base, pitch, k, len)| == len && i < len
    ensures base + k * pitch + i < |m|
    ensures m[base + k * pitch + i] == Row(m, base, pitch, k, len)[i]
  {
  }

  /** The rectangle-copy contract determines its result: two memories that
      both meet it for the same inputs are equal. */
  lemma RectCopyDetermined<T>(r1: seq<T>, r2: seq<T>, dst: seq<T>, dOff: nat, dPitch: nat,
                              src: seq<T>, sOff: nat, sPitch: nat, len: nat, h: nat)
    requires dPitch > 0 && len <= dPitch
    requires |r1| == |dst| && |r2| == |dst|
    requires forall k :: 0 <= k < h ==>
               |Row(r1, dOff, dPitch, k, len)| == len &&
               Row(r1, dOff, dPitch, k, len) == Row(src, sOff, sPitch, k, len)
    requires forall k :: 0 <= k < h ==>
               |Row(r2, dOff, dPitch, k, len)| == len &&
               Row(r2, dOff, dPitch, k, len) == Row(src, sOff, sPitch, k, len)
    requires forall j :: 0 <= j < |dst| && !InRect(j, dOff, dPitch, len, h) ==> r1[j] == dst[j]
    requires forall j :: 0 <= j < |dst| && !InRect(j, dOff, dPitch, len, h) ==> r2[j] == dst[j]
    ensures r1 == r2
  {
    forall j | 0 <= j < |dst|
      ensures r1[j] == r2[j]
    {
      if InRect(j, dOff, dPitch, len, h) {
        var x := j - dOff;
        DivBounds(x, dPitch);
        var k := x / dPitch;
        var i := x % dPitch;
        RowCell(r1, dOff, dPitch, k, len, i);
        RowCell(r2, dOff, dPitch, k, len, i);
      }
    }
  }

  /** When both pitches equal the line length the rows are contiguous, so
      the single `memcpy` of `len * h` cells writes what the row loop
      writes. */
  lemma FastPathIsRowCopy<T>(dst: seq<T>, dOff: nat, src: seq<T>, sOff: nat, len: nat, h: nat, n: nat)
    requires len > 0 && h > 0 && n == len * h
    requires Fits(|dst|, dOff, len, len, h) && Fits(|src|, sOff, len, len, h)
    ensures dOff + n <= |dst| && sOff + n <= |src|
    ensures Splice(dst, dOff, src[sOff..sOff + n]) == CopyRows(dst, dOff, len, src, sOff, len, len, h)
  {
    FastPathCopies(dst, dOff, src, sOff, len, h, n);
    var r1 := Splice(dst, dOff, src[sOff..sOff + n]);
    var r2 := CopyRows(dst, dOff, len, src, sOff, len, len, h);
    RectCopyDetermined(r1, r2, dst, dOff, len, src, sOff, len, len, h);
  }

  lemma FastPathStep(len: nat, h: nat, n: nat)
    requires h >= 1 && n == len * h
    ensures n == (h - 1) * len + len
  {
  }

  /** The contract of `NVAccelMemcpyRect` spelled out cell by cell: cell
      `i` of row `k` at the destination is cell `i` of row `k` at the
      source. */
  lemma MemcpyRectCells<T>(dst: seq<T>, dOff: nat, dPitch: nat,
                           src: seq<T>, sOff: nat, sPitch: nat, len: nat, h: nat, k: nat, i: nat)
    requires dPitch > 0 && len <= dPitch
    requires Fits(|dst|, dOff, dPitch, len, h) && Fits(|src|, sOff, sPitch, len, h)
    requires k < h && i < len
    ensures Offset(dOff, dPitch, k) + i < |dst| && Offset(sOff, sPitch, k) + i < |src|
    ensures MemcpyRect(dst, dOff, dPitch, src, sOff, sPitch, len, h)[Offset(dOff, dPitch, k) + i]
            == src[Offset(sOff, sPitch, k) + i]
  {
    var r := MemcpyRect(dst, dOff, dPitch, src, sOff, sPitch, len, h);
    assert Row(r, dOff, dPitch, k, len) == Row(src, sOff, sPitch, k, len);
    RowCell(r, dOff, dPitch, k, len, i);
    RowCell(src, sOff, sPitch, k, len, i);
  }
}
