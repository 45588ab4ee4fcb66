// drivers/src/peripheral/x86/mb2fb.rs: copying a rectangle of the framebuffer onto
// another, which may overlap it in any way.
module CopyRegion {
  import opened Bits

  /** A rectangle of pixels. */
  datatype Rect = Rect(x: nat, y: nat, width: nat, height: nat)

  datatype Geometry = Geometry(width: nat, height: nat, pitch: nat, bytesPerPixel: nat) {

    /** Rows are long enough for their pixels, as the boot loader promises. */
    predicate Valid() {
      bytesPerPixel > 0 && width * bytesPerPixel <= pitch
    }

    /** `offset` */
    function Offset(x: nat, y: nat): nat {
      y * pitch + x * bytesPerPixel
    }

    predicate InBounds(r: Rect) {
      r.x + r.width <= width && r.y + r.height <= height
    }

    /** Byte `c` belongs to row `k` of the rectangle. */
    predicate InRow(r: Rect, k: nat, c: int) {
      Offset(r.x, r.y + k) <= c < Offset(r.x, r.y + k) + r.width * bytesPerPixel
    }

    ghost predicate InRows(r: Rect, lo: nat, hi: nat, c: int) {
      exists k: nat :: lo <= k < hi && InRow(r, k, c)
    }

    /** Distance from a byte of the destination to the byte of the source that goes there. */
    function Shift(src: Rect, dst: Rect): int {
      Offset(src.x, src.y) - Offset(dst.x, dst.y)
    }

    /** A row of a rectangle stays within its row of the screen, and within the buffer. */
    lemma RowBounds(r: Rect, k: nat)
      requires Valid() && InBounds(r) && k < r.height
      ensures (r.y + k) * pitch <= Offset(r.x, r.y + k)
      ensures Offset(r.x, r.y + k) + r.width * bytesPerPixel <= (r.y + k + 1) * pitch <= height * pitch
    {
      Distribute(r.x, r.width, bytesPerPixel);
      MulLe(r.x + r.width, width, bytesPerPixel);
      Distribute(r.y + k, 1, pitch);
      MulLe(r.y + k + 1, height, pitch);
    }

    /** Rows of different height have no byte in common. */
    lemma RowsApart(r: Rect, k: nat, s: Rect, l: nat, c: int)
      requires Valid() && InBounds(r) && InBounds(s) && k < r.height && l < s.height
      requires r.y + k != s.y + l && InRow(r, k, c)
      ensures !InRow(s, l, c)
    {
      RowBounds(r, k);
      RowBounds(s, l);
      if r.y + k < s.y + l {
        MulLe(r.y + k + 1, s.y + l, pitch);
      } else {
        MulLe(s.y + l + 1, r.y + k, pitch);
      }
    }

    /** The shift is the same in every row. */
    lemma ShiftOfRow(src: Rect, dst: Rect, k: nat)
      ensures Offset(src.x, src.y + k) - Offset(dst.x, dst.y + k) == Shift(src, dst)
    {
      Distribute(src.y, k, pitch);
      Distribute(dst.y, k, pitch);
    }

    /** Rows [lo, hi) of the destination hold the source's bytes; everything else is as it was. */
    ghost predicate RowsCopied(was: seq<nat>, now: seq<nat>, src: Rect, dst: Rect, lo: nat, hi: nat) {
      && |now| == |was|
      && (forall c: nat :: c < |was| && InRows(dst, lo, hi, c) ==>
            0 <= c + Shift(src, dst) < |was| && now[c] == was[c + Shift(src, dst)])
      && (forall c: nat :: c < |was| && !InRows(dst, lo, hi, c) ==> now[c] == was[c])
    }

    /** The `n` bytes from `to` on hold what the `n` bytes from `from` on held just before. */
    static ghost predicate Moved(mid: seq<nat>, now: seq<nat>, from: nat, to: nat, n: nat) {
      && |now| == |mid| && from + n <= |mid| && to + n <= |mid|
      && forall c {:trigger now[c]} :: 0 <= c < |mid| ==> now[c] == if to <= c < to + n then mid[c - to + from] else mid[c]
    }

    static lemma MovedAt(mid: seq<nat>, now: seq<nat>, from: nat, to: nat, n: nat, c: nat)
      requires Moved(mid, now, from, to, n) && c < |mid|
      ensures |now| == |mid| && from + n <= |mid|
      ensures now[c] == if to <= c < to + n then mid[c - to + from] else mid[c]
    {
    }

    lemma RowEnds(r: Rect, k: nat, c: int)
      ensures InRow(r, k, c) <==> Offset(r.x, r.y + k) <= c < Offset(r.x, r.y + k) + r.width * bytesPerPixel
    {
    }

    /** One more row, copied from bytes no earlier row has overwritten. */
    lemma OneMoreRow(was: seq<nat>, mid: seq<nat>, now: seq<nat>, src: Rect, dst: Rect, lo: nat, hi: nat, k: nat)
      requires Valid() && InBounds(src) && InBounds(dst) && src.width == dst.width && src.height == dst.height
      requires height * pitch <= |was| && k < dst.height && lo <= hi <= dst.height
      requires RowsCopied(was, mid, src, dst, lo, hi)
      requires Moved(mid, now, Offset(src.x, src.y + k), Offset(dst.x, dst.y + k), dst.width * bytesPerPixel)
      requires (k == hi && dst.y <= src.y) || (k == lo - 1 && src.y < dst.y)
      ensures RowsCopied(was, now, src, dst, if k < lo then k else lo, if k < lo then hi else k + 1)
    {
      hide Geometry.Offset, Geometry.InRow, Geometry.InRows, Geometry.Shift, Geometry.Valid, Geometry.InBounds, Geometry.Moved;
      var lo', hi' := if k < lo then k else lo, if k < lo then hi else k + 1;
      MovedSize(mid, now, Offset(src.x, src.y + k), Offset(dst.x, dst.y + k), dst.width * bytesPerPixel);
      forall c: nat | c < |was| && InRows(dst, lo', hi', c)
        ensures 0 <= c + Shift(src, dst) < |was| && now[c] == was[c + Shift(src, dst)]
      {
        OneMoreByte(was, mid, now, src, dst, lo, hi, k, c);
      }
      forall c: nat | c < |was| && !InRows(dst, lo', hi', c)
        ensures now[c] == was[c]
      {
        OneMoreByte(was, mid, now, src, dst, lo, hi, k, c);
      }
    }

    lemma OneMoreByte(was: seq<nat>, mid: seq<nat>, now: seq<nat>, src: Rect, dst: Rect, lo: nat, hi: nat, k: nat, c: nat)
      requires Valid() && InBounds(src) && InBounds(dst) && src.width == dst.width && src.height == dst.height
      requires height * pitch <= |was| && k < dst.height && lo <= hi <= dst.height && c < |was|
      requires RowsCopied(was, mid, src, dst, lo, hi)
      requires Moved(mid, now, Offset(src.x, src.y + k), Offset(dst.x, dst.y + k), dst.width * bytesPerPixel)
      requires (k == hi && dst.y <= src.y) || (k == lo - 1 && src.y < dst.y)
      ensures |now| == |was|
      ensures var lo', hi' := if k < lo then k else lo, if k < lo then hi else k + 1;
              if InRows(dst, lo', hi', c) then 0 <= c + Shift(src, dst) < |was| && now[c] == was[c + Shift(src, dst)]
              else now[c] == was[c]
    {
      hide Geometry.Offset, Geometry.InRow, Geometry.InRows, Geometry.Shift, Geometry.Valid, Geometry.InBounds, Geometry.Moved;
      RowSplit(dst, lo, hi, k, c);
      RowEnds(dst, k, c);
      MovedAt(mid, now, Offset(src.x, src.y + k), Offset(dst.x, dst.y + k), dst.width * bytesPerPixel, c);
      if InRow(dst, k, c) {
        RowByte(was, mid, src, dst, lo, hi, k, c);
      }
    }

    static lemma MovedSize(mid: seq<nat>, now: seq<nat>, from: nat, to: nat, n: nat)
      requires Moved(mid, now, from, to, n)
      ensures |now| == |mid|
    {
    }

    /** What a byte of the row being copied is copied from. */
    lemma RowByte(was: seq<nat>, mid: seq<nat>, src: Rect, dst: Rect, lo: nat, hi: nat, k: nat, c: nat)
      requires Valid() && InBounds(src) && InBounds(dst) && src.width == dst.width && src.height == dst.height
      requires k < dst.height && lo <= hi <= dst.height && RowsCopied(was, mid, src, dst, lo, hi)
      requires (k == hi && dst.y <= src.y) || (k == lo - 1 && src.y < dst.y)
      requires InRow(dst, k, c) && height * pitch <= |was|
      ensures var d := c - Offset(dst.x, dst.y + k) + Offset(src.x, src.y + k);
              d == c + Shift(src, dst) && 0 <= d < |was| == |mid| && mid[d] == was[d]
    {
      hide Geometry.Offset, Geometry.InRows, Geometry.Shift;
      ShiftOfRow(src, dst, k);
      RowBounds(src, k);
      var d := c - Offset(dst.x, dst.y + k) + Offset(src.x, src.y + k);
      assert InRow(src, k, d);
      SourceFresh(src, dst, lo, hi, k, d);
    }

    lemma CopiedAt(was: seq<nat>, now: seq<nat>, src: Rect, dst: Rect, i: nat, k: nat, b: nat)
      requires Valid() && InBounds(src) && InBounds(dst) && src.width == dst.width && src.height == dst.height
      requires height * pitch <= |was| && RowsCopied(was, now, src, dst, 0, dst.height)
      requires i < dst.width && k < dst.height && b < bytesPerPixel
      ensures Offset(dst.x + i, dst.y + k) + b < |was| && Offset(src.x + i, src.y + k) + b < |was| == |now|
      ensures now[Offset(dst.x + i, dst.y + k) + b] == was[Offset(src.x + i, src.y + k) + b]
    {
      hide Geometry.Offset, Geometry.InRow, Geometry.Shift, Geometry.Valid, Geometry.InBounds;
      var c := Offset(dst.x + i, dst.y + k) + b;
      PixelInRow(src, i, k, b);
      PixelInRow(dst, i, k, b);
      RowBounds(src, k);
      RowBounds(dst, k);
      ShiftOfRow(src, dst, k);
      assert InRows(dst, 0, dst.height, c);
    }

    /** Pixel by pixel, in byte addresses: what was drawn in the source is now, at the same place, in the destination. */
    lemma CopiedPixel(was: seq<nat>, now: seq<nat>, src: Rect, dst: Rect, i: nat, k: nat, b: nat)
      requires Valid() && InBounds(src) && InBounds(dst) && src.width == dst.width && src.height == dst.height
      requires height * pitch <= |was| && RowsCopied(was, now, src, dst, 0, dst.height)
      requires i < dst.width && k < dst.height && b < bytesPerPixel
      ensures var from, to := (src.y + k) * pitch + (src.x + i) * bytesPerPixel + b, (dst.y + k) * pitch + (dst.x + i) * bytesPerPixel + b;
              0 <= from < |was| && 0 <= to < |now| && now[to] == was[from]
    {
      hide Geometry.Offset, Geometry.RowsCopied, Geometry.Valid, Geometry.InBounds;
      OffsetMeans(src.x + i, src.y + k);
      OffsetMeans(dst.x + i, dst.y + k);
      CopiedAt(was, now, src, dst, i, k, b);
    }

    lemma OffsetMeans(x: nat, y: nat)
      ensures Offset(x, y) == y * pitch + x * bytesPerPixel
    {
    }

    /** A byte in no row of the destination is as it was. */
    lemma KeptByte(was: seq<nat>, now: seq<nat>, src: Rect, dst: Rect, c: nat)
      requires RowsCopied(was, now, src, dst, 0, dst.height) && c < |was|
      requires forall y: nat :: dst.y <= y < dst.y + dst.height ==>
                 c < y * pitch + dst.x * bytesPerPixel || c >= y * pitch + (dst.x + dst.width) * bytesPerPixel
      ensures |now| == |was| && now[c] == was[c]
    {
      forall k: nat | k < dst.height
        ensures !InRow(dst, k, c)
      {
        Distribute(dst.x, dst.width, bytesPerPixel);
        var y := dst.y + k;
        assert c < y * pitch + dst.x * bytesPerPixel || c >= y * pitch + (dst.x + dst.width) * bytesPerPixel;
      }
    }

    lemma PixelInRow(r: Rect, i: nat, k: nat, b: nat)
      requires i < r.width && b < bytesPerPixel
      ensures InRow(r, k, Offset(r.x + i, r.y + k) + b)
      ensures Offset(r.x + i, r.y + k) == Offset(r.x, r.y + k) + i * bytesPerPixel
      ensures Offset(r.x + i, r.y + k) + b < Offset(r.x, r.y + k) + r.width * bytesPerPixel
    {
      Distribute(r.x, i, bytesPerPixel);
      MulStrict(i, r.width, bytesPerPixel);
    }

    lemma RowSplit(dst: Rect, lo: nat, hi: nat, k: nat, c: int)
      requires lo <= hi && (k == hi || k == lo - 1)
      ensures InRows(dst, if k < lo then k else lo, if k < lo then hi else k + 1, c) <==>
              InRows(dst, lo, hi, c) || InRow(dst, k, c)
    {
      var lo', hi' := if k < lo then k else lo, if k < lo then hi else k + 1;
      if InRows(dst, lo', hi', c) {
        var l: nat :| lo' <= l < hi' && InRow(dst, l, c);
        assert l == k || lo <= l < hi;
      }
    }

    /** Going down when copying up, and up when copying down, a source row is read before it is written. */
    lemma SourceFresh(src: Rect, dst: Rect, lo: nat, hi: nat, k: nat, c: int)
      requires Valid() && InBounds(src) && InBounds(dst) && src.width == dst.width && src.height == dst.height
      requires k < dst.height && hi <= dst.height && InRow(src, k, c)
      requires (k == hi && dst.y <= src.y) || (k == lo - 1 && src.y < dst.y)
      ensures !InRows(dst, lo, hi, c)
    {
      forall l: nat | lo <= l < hi
        ensures !InRow(dst, l, c)
      {
        RowsApart(src, k, dst, l, c);
      }
    }
  }

  class Mb2Fb {
    const base: array<nat>
    const info: Geometry

    constructor (base: array<nat>, info: Geometry)
      ensures this.base == base && this.info == info
    {
      this.base, this.info := base, info;
    }

    /** One row, byte by byte, in the direction that is safe for overlapping rows. */
    method CopyRow(srcOff: nat, dstOff: nat, rowBytes: nat)
      requires srcOff + rowBytes <= base.Length && dstOff + rowBytes <= base.Length
      modifies base
      ensures Geometry.Moved(old(base[..]), base[..], srcOff, dstOff, rowBytes)
    {
      if dstOff <= srcOff {
        for b := 0 to rowBytes
          invariant forall c :: 0 <= c < base.Length ==>
                      base[c] == if dstOff <= c < dstOff + b then old(base[c - dstOff + srcOff]) else old(base[c])
        {
          base[dstOff + b] := base[srcOff + b];
        }
      } else {
        for b := rowBytes downto 0
          invariant forall c :: 0 <= c < base.Length ==>
                      base[c] == if dstOff + b <= c < dstOff + rowBytes then old(base[c - dstOff + srcOff]) else old(base[c])
        {
          base[dstOff + b] := base[srcOff + b];
        }
      }
    }

    /**
     * `copy_region`: every byte of the destination gets the byte the source rectangle originally had in its
     * place, and no other byte changes, however the two overlap.
     */
    method CopyRegion(srcX: nat, srcY: nat, dstX: nat, dstY: nat, width: nat, height: nat)
      requires info.Valid() && info.height * info.pitch <= base.Length
      requires info.InBounds(Rect(srcX, srcY, width, height)) && info.InBounds(Rect(dstX, dstY, width, height))
      modifies base
      ensures info.RowsCopied(old(base[..]), base[..], Rect(srcX, srcY, width, height), Rect(dstX, dstY, width, height), 0, height)
    {
      hide Geometry.InRows, Geometry.InRow, Geometry.Moved, Geometry.RowsCopied;
      ghost var src, dst, was := Rect(srcX, srcY, width, height), Rect(dstX, dstY, width, height), base[..];
      var rowBytes := width * info.bytesPerPixel;
      var i := 0;
      ghost var lo, hi := if dstY <= srcY then 0 else height, if dstY <= srcY then 0 else height;
      NoRows(info, was, src, dst, lo);
      while i < height
        invariant 0 <= i <= height
        invariant if dstY <= srcY then lo == 0 && hi == i else lo == height - i && hi == height
        invariant info.RowsCopied(was, base[..], src, dst, lo, hi)
      {
        var si := if dstY <= srcY then i else height - 1 - i;
        info.RowBounds(src, si);
        info.RowBounds(dst, si);
        ghost var mid := base[..];
        var srcOff := info.Offset(srcX, srcY + si);
        var dstOff := info.Offset(dstX, dstY + si);
        CopyRow(srcOff, dstOff, rowBytes);
        info.OneMoreRow(was, mid, base[..], src, dst, lo, hi, si);
        lo, hi := if si < lo then si else lo, if si < lo then hi else si + 1;
        i := i + 1;
      }
    }

    static lemma NoRows(info: Geometry, was: seq<nat>, src: Rect, dst: Rect, k: nat)
      ensures info.RowsCopied(was, was, src, dst, k, k)
    {
    }
  }
}
