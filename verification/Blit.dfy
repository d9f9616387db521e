/** Copying rectangles inside the back buffer, through memmove. */
module Blit {
  import opened Bytes

  /** Bytes per pixel. */
  const DEPTH: nat := 4

  /** Moves `n` bytes from `s` to `d` in the same memory; the ranges may overlap. */
  method MemMove(mem: array<byte>, d: nat, s: nat, n: nat)
    requires d + n <= mem.Length && s + n <= mem.Length
    modifies mem
    ensures mem[..] == Splice(old(mem[..]), d, old(mem[..])[s..s + n])
  {
    hide Splice;
    ghost var m := mem[..];
    SpliceSame(m, d, n);
    if d == s || n == 0 {
      assert m[s..s + n] == m[d..d + n];
      return;
    }
    if d < s {
      MoveUpward(mem, d, s, n);
    } else {
      MoveDownward(mem, d, s, n);
    }
  }

  /** The loop from the front, for a destination below the source. */
  method MoveUpward(mem: array<byte>, d: nat, s: nat, n: nat)
    requires d < s && s + n <= mem.Length
    modifies mem
    ensures mem[..] == Splice(old(mem[..]), d, old(mem[..])[s..s + n])
  {
    hide Splice;
    ghost var m := mem[..];
    SpliceSame(m, d, 0);
    var i := 0;
    while i < n
      invariant 0 <= i <= n && mem[..] == Splice(m, d, m[s..s + i])
    {
      ghost var was := mem[..];
      UpStep(m, was, d, s, n, i);
      mem[d + i] := mem[s + i];
      assert mem[..] == was[d + i := was[s + i]];
      i := i + 1;
    }
  }

  /** The loop from the back, for a destination above the source. */
  method MoveDownward(mem: array<byte>, d: nat, s: nat, n: nat)
    requires s < d && d + n <= mem.Length
    modifies mem
    ensures mem[..] == Splice(old(mem[..]), d, old(mem[..])[s..s + n])
  {
    hide Splice;
    ghost var m := mem[..];
    SpliceSame(m, d + n, 0);
    var i := n;
    while i != 0
      invariant 0 <= i <= n && mem[..] == Splice(m, d + i, m[s + i..s + n])
    {
      ghost var was := mem[..];
      i := i - 1;
      DownStep(m, was, d, s, n, i);
      mem[d + i] := mem[s + i];
      assert mem[..] == was[d + i := was[s + i]];
    }
  }

  /** The byte read has not been overwritten yet. */
  lemma UpStep(m: seq<byte>, was: seq<byte>, d: nat, s: nat, n: nat, i: nat)
    requires d < s && s + n <= |m| && i < n && was == Splice(m, d, m[s..s + i])
    ensures was[d + i := was[s + i]] == Splice(m, d, m[s..s + (i + 1)])
  {
    hide Splice;
    GrowBack(m, d, m[s..s + i], m[s + i]);
    assert m[s..s + i] + [m[s + i]] == m[s..s + (i + 1)];
  }

  lemma DownStep(m: seq<byte>, was: seq<byte>, d: nat, s: nat, n: nat, i: nat)
    requires s < d && d + n <= |m| && i < n && was == Splice(m, d + (i + 1), m[s + (i + 1)..s + n])
    ensures was[d + i := was[s + i]] == Splice(m, d + i, m[s + i..s + n])
  {
    hide Splice;
    GrowFront(m, d + i, m[s + (i + 1)..s + n], m[s + i]);
    assert [m[s + i]] + m[s + (i + 1)..s + n] == m[s + i..s + n];
  }

  lemma SpliceSame(m: seq<byte>, d: nat, n: nat)
    requires d + n <= |m|
    ensures Splice(m, d, m[d..d + n]) == m
  {
    assert m == m[..d] + m[d..d + n] + m[d + n..];
  }

  lemma GrowBack(m: seq<byte>, d: nat, x: seq<byte>, v: byte)
    requires d + |x| < |m|
    ensures Splice(m, d, x)[d + |x| := v] == Splice(m, d, x + [v])
  {
  }

  lemma GrowFront(m: seq<byte>, d: nat, x: seq<byte>, v: byte)
    requires d + 1 + |x| <= |m|
    ensures Splice(m, d + 1, x)[d := v] == Splice(m, d, [v] + x)
  {
  }

  // ---- Rows ----

  /** Where row `y` starts. */
  function RowAt(p: nat, y: nat): nat {
    y * p
  }

  /** A buffer of `h` rows of `p` bytes. */
  ghost predicate Shaped(b: seq<byte>, p: nat, h: nat) {
    |b| == RowAt(p, h)
  }

  /** Row `y` ends where or before a later row `z` starts. */
  lemma {:induction false} RowFits(p: nat, z: nat, y: nat)
    requires y < z
    ensures RowAt(p, y) + p <= RowAt(p, z)
  {
    if y + 1 < z { RowFits(p, z - 1, y); }
    assert RowAt(p, z) == RowAt(p, z - 1) + p;
  }

  ghost function Row(b: seq<byte>, p: nat, h: nat, y: nat): (r: seq<byte>)
    requires Shaped(b, p, h) && y < h
    ensures |r| == p
  {
    RowFits(p, h, y);
    b[RowAt(p, y)..RowAt(p, y) + p]
  }

  /** A write inside row `y` changes that row and no other. */
  lemma RowWrite(b: seq<byte>, p: nat, h: nat, y: nat, o: nat, x: seq<byte>, z: nat)
    requires Shaped(b, p, h) && y < h && z < h && o + |x| <= p
    ensures RowAt(p, y) + o + |x| <= |b|
    ensures Row(Splice(b, RowAt(p, y) + o, x), p, h, z) ==
            if z == y then Splice(Row(b, p, h, y), o, x) else Row(b, p, h, z)
  {
    hide RowAt;
    RowFits(p, h, y);
    RowFits(p, h, z);
    if z == y {
      SliceSplice(b, RowAt(p, y), p, o, x);
    } else {
      if z < y { RowFits(p, y, z); } else { RowFits(p, z, y); }
      SliceElsewhere(b, RowAt(p, y) + o, x, RowAt(p, z), p);
    }
  }

  lemma SliceSplice(b: seq<byte>, base: nat, p: nat, o: nat, x: seq<byte>)
    requires base + p <= |b| && o + |x| <= p
    ensures Splice(b, base + o, x)[base..base + p] == Splice(b[base..base + p], o, x)
  {
  }

  lemma SliceElsewhere(b: seq<byte>, at: nat, x: seq<byte>, base: nat, p: nat)
    requires at + |x| <= |b| && base + p <= |b| && (at + |x| <= base || base + p <= at)
    ensures Splice(b, at, x)[base..base + p] == b[base..base + p]
  {
  }

  /** The part of row `y` from byte `o` on. */
  lemma RowSlice(b: seq<byte>, p: nat, h: nat, y: nat, o: nat, n: nat)
    requires Shaped(b, p, h) && y < h && o + n <= p
    ensures RowAt(p, y) + o + n <= |b| && b[RowAt(p, y) + o..RowAt(p, y) + o + n] == Row(b, p, h, y)[o..o + n]
  {
    hide RowAt;
    RowFits(p, h, y);
    PartOfPart(b, RowAt(p, y), RowAt(p, y) + p, o, n);
  }

  // ---- The rectangle copy ----

  /** The row that ends up at `z` when the rectangle of rows `dy ..` gets the bytes `sx ..` of rows `sy ..` at `dx`. */
  ghost function Blitted(b: seq<byte>, p: nat, h: nat, sx: nat, sy: nat, dx: nat, dy: nat, n: nat, rows: nat,
                         z: nat): seq<byte>
    requires Shaped(b, p, h) && z < h && sx + n <= p && dx + n <= p && sy + rows <= h && dy + rows <= h
  {
    if dy <= z < dy + rows then Splice(Row(b, p, h, z), dx, Row(b, p, h, z - dy + sy)[sx..sx + n]) else Row(b, p, h, z)
  }

  class BackendState {
    var ready: bool
    const width: nat
    const height: nat
    const backbuffer: array<byte>

    constructor (width: nat, height: nat, backbuffer: array<byte>)
      requires backbuffer.Length == RowAt(width * DEPTH, height)
      ensures this.width == width && this.height == height && this.backbuffer == backbuffer && ready && Valid()
    {
      this.width, this.height, this.backbuffer, ready := width, height, backbuffer, true;
    }

    ghost predicate Valid() {
      backbuffer.Length == RowAt(width * DEPTH, height)
    }

    /** Copies a rectangle of pixels, clipped to the screen; source and destination may overlap. Each destination
        pixel gets what the source pixel held before, and no other pixel changes. */
    method Blit(srcX: nat, srcY: nat, dstX: nat, dstY: nat, w: nat, h: nat)
      requires Valid()
      modifies backbuffer
      ensures forall x: nat, y: nat | x < width && y < height ::
                Pixel(backbuffer[..], width, height, x, y) ==
                if ready && srcX < width && srcY < height && dstX < width && dstY < height
                then Moved(old(backbuffer[..]), width, height, srcX, srcY, dstX, dstY, w, h, x, y)
                else Pixel(old(backbuffer[..]), width, height, x, y)
    {
      hide Pixel, Moved, Row, RowAt;
      if !ready || srcX >= width || srcY >= height || dstX >= width || dstY >= height {
        return;
      }
      var copyW := Min(w, Min(width - srcX, width - dstX));
      var copyH := Min(h, Min(height - srcY, height - dstY));
      ghost var b := backbuffer[..];
      CopyRows(srcX, srcY, dstX, dstY, copyW, copyH);
      AllPixels(b, backbuffer[..], width, height, srcX, srcY, dstX, dstY, w, h);
    }

    /** The row loops: downwards from the last row when the destination lies below the source, else upwards. */
    method CopyRows(srcX: nat, srcY: nat, dstX: nat, dstY: nat, copyW: nat, copyH: nat)
      requires Valid() && srcX + copyW <= width && dstX + copyW <= width && srcY + copyH <= height
               && dstY + copyH <= height
      modifies backbuffer
      ensures Done(old(backbuffer[..]), backbuffer[..], width * DEPTH, height, srcX * DEPTH, srcY, dstX * DEPTH, dstY,
                   copyW * DEPTH, copyH)
    {
      hide Blitted, Row, Splice, RowAt;
      ghost var b, p := backbuffer[..], width * DEPTH;
      ghost var sx, dx, n := srcX * DEPTH, dstX * DEPTH, copyW * DEPTH;
      NoneYet(b, p, height, sx, srcY, dx, dstY, n);
      if copyW == 0 || copyH == 0 {
        NoBytes(b, p, height, sx, srcY, dx, dstY, n, copyH);
        return;
      }
      if dstY > srcY {
        var row := copyH;
        NoneYet(b, p, height, sx, srcY + copyH, dx, dstY + copyH, n);
        while row > 0
          invariant 0 <= row <= copyH
          invariant Done(b, backbuffer[..], p, height, sx, srcY + row, dx, dstY + row, n, copyH - row)
        {
          row := row - 1;
          CopyRow(srcX, srcY + row, dstX, dstY + row, copyW, b, srcY + row + 1, dstY + row + 1, copyH - row - 1);
        }
      } else {
        var row := 0;
        while row < copyH
          invariant 0 <= row <= copyH
          invariant Done(b, backbuffer[..], p, height, sx, srcY, dx, dstY, n, row)
        {
          CopyRow(srcX, srcY + row, dstX, dstY + row, copyW, b, srcY, dstY, row);
          row := row + 1;
        }
      }
    }

    /** One memmove of the row loops, next to a block of rows already copied. */
    method CopyRow(srcX: nat, srcY: nat, dstX: nat, dstY: nat, copyW: nat, ghost b: seq<byte>, ghost sy: nat,
                   ghost dy: nat, ghost rows: nat)
      requires Valid() && srcX + copyW <= width && dstX + copyW <= width && srcY < height && dstY < height
      requires sy + rows <= height && dy + rows <= height && Shaped(b, width * DEPTH, height)
      requires Done(b, backbuffer[..], width * DEPTH, height, srcX * DEPTH, sy, dstX * DEPTH, dy, copyW * DEPTH, rows)
      requires (srcY == sy + rows && dstY == dy + rows && dy <= sy) || (srcY + 1 == sy && dstY + 1 == dy && dy > sy)
      modifies backbuffer
      ensures Done(b, backbuffer[..], width * DEPTH, height, srcX * DEPTH, if srcY < sy then srcY else sy,
                   dstX * DEPTH, if dstY < dy then dstY else dy, copyW * DEPTH, rows + 1)
    {
      hide Row, Splice, Done, Shaped, ByteOffset, RowAt;
      ghost var p := width * DEPTH;
      DoneShape(b, backbuffer[..], p, height, srcX * DEPTH, sy, dstX * DEPTH, dy, copyW * DEPTH, rows);
      RowSlice(backbuffer[..], p, height, dstY, dstX * DEPTH, copyW * DEPTH);
      RowSlice(backbuffer[..], p, height, srcY, srcX * DEPTH, copyW * DEPTH);
      ghost var m := backbuffer[..];
      MemMove(backbuffer, ByteOffset(width, dstX, dstY), ByteOffset(width, srcX, srcY), copyW * DEPTH);
      OneRow(b, m, backbuffer[..], p, height, srcX * DEPTH, srcY, dstX * DEPTH, dstY, copyW * DEPTH, sy, dy, rows);
    }
  }

  /** A block of `rows` rows has been copied, and nothing else changed. */
  ghost predicate Done(b: seq<byte>, m: seq<byte>, p: nat, h: nat, sx: nat, sy: nat, dx: nat, dy: nat, n: nat,
                       rows: nat) {
    && Shaped(b, p, h) && Shaped(m, p, h) && sx + n <= p && dx + n <= p && sy + rows <= h && dy + rows <= h
    && forall z: nat | z < h :: Row(m, p, h, z) == Blitted(b, p, h, sx, sy, dx, dy, n, rows, z)
  }

  /** Where pixel (x, y) starts in the buffer. */
  function ByteOffset(width: nat, x: nat, y: nat): (r: nat)
    ensures r == RowAt(width * DEPTH, y) + x * DEPTH
  {
    (y * width + x) * DEPTH
  }

  lemma DoneShape(b: seq<byte>, m: seq<byte>, p: nat, h: nat, sx: nat, sy: nat, dx: nat, dy: nat, n: nat, rows: nat)
    requires Done(b, m, p, h, sx, sy, dx, dy, n, rows)
    ensures Shaped(m, p, h) && sx + n <= p && dx + n <= p
  {
    hide Row;
  }

  lemma NoneYet(b: seq<byte>, p: nat, h: nat, sx: nat, sy: nat, dx: nat, dy: nat, n: nat)
    requires Shaped(b, p, h) && sx + n <= p && dx + n <= p && sy <= h && dy <= h
    ensures Done(b, b, p, h, sx, sy, dx, dy, n, 0)
  {
  }

  lemma NoBytes(b: seq<byte>, p: nat, h: nat, sx: nat, sy: nat, dx: nat, dy: nat, n: nat, rows: nat)
    requires Shaped(b, p, h) && sx + n <= p && dx + n <= p && sy + rows <= h && dy + rows <= h && (n == 0 || rows == 0)
    ensures Done(b, b, p, h, sx, sy, dx, dy, n, rows)
  {
    hide Row;
    forall z: nat | z < h
      ensures Row(b, p, h, z) == Blitted(b, p, h, sx, sy, dx, dy, n, rows, z)
    {
      if dy <= z < dy + rows {
        var r := Row(b, p, h, z);
        assert Row(b, p, h, z - dy + sy)[sx..sx + n] == [] == r[dx..dx + n];
        SpliceSame(r, dx, 0);
      }
    }
  }

  /** The row loops run away from the rows still to be read, so each source row is read before it is written. */
  lemma OneRow(b: seq<byte>, m: seq<byte>, m2: seq<byte>, p: nat, h: nat, sx: nat, srcY: nat, dx: nat, dstY: nat,
               n: nat, sy: nat, dy: nat, rows: nat)
    requires Done(b, m, p, h, sx, sy, dx, dy, n, rows) && srcY < h && dstY < h
    requires (srcY == sy + rows && dstY == dy + rows && dy <= sy) || (srcY + 1 == sy && dstY + 1 == dy && dy > sy)
    requires RowAt(p, dstY) + dx + n <= |m| && RowAt(p, srcY) + sx + n <= |m|
    requires m2 == Splice(m, RowAt(p, dstY) + dx, m[RowAt(p, srcY) + sx..RowAt(p, srcY) + sx + n])
    ensures Done(b, m2, p, h, sx, if srcY < sy then srcY else sy, dx, if dstY < dy then dstY else dy, n, rows + 1)
  {
    hide Row, Splice, RowAt;
    RowSlice(m, p, h, srcY, sx, n);
    var piece := m[RowAt(p, srcY) + sx..RowAt(p, srcY) + sx + n];
    assert Row(m, p, h, srcY) == Row(b, p, h, srcY);
    assert Row(m, p, h, dstY) == Row(b, p, h, dstY);
    forall z: nat | z < h
      ensures Row(m2, p, h, z) ==
              Blitted(b, p, h, sx, if srcY < sy then srcY else sy, dx, if dstY < dy then dstY else dy, n, rows + 1, z)
    {
      RowWrite(m, p, h, dstY, dx, piece, z);
    }
  }

  // ---- Pixels ----

  ghost function Pixel(b: seq<byte>, width: nat, height: nat, x: nat, y: nat): nat
    requires Shaped(b, width * DEPTH, height) && x < width && y < height
  {
    U32(Row(b, width * DEPTH, height, y), x * DEPTH)
  }

  /** Pixel (x, y) after the clipped copy. */
  ghost function Moved(b: seq<byte>, width: nat, height: nat, srcX: nat, srcY: nat, dstX: nat, dstY: nat, w: nat,
                       h: nat, x: nat, y: nat): nat
    requires Shaped(b, width * DEPTH, height) && x < width && y < height
    requires srcX < width && srcY < height && dstX < width && dstY < height
  {
    var copyW := Min(w, Min(width - srcX, width - dstX));
    var copyH := Min(h, Min(height - srcY, height - dstY));
    if dstX <= x < dstX + copyW && dstY <= y < dstY + copyH
    then Pixel(b, width, height, x - dstX + srcX, y - dstY + srcY)
    else Pixel(b, width, height, x, y)
  }

  lemma AllPixels(b: seq<byte>, m: seq<byte>, width: nat, height: nat, srcX: nat, srcY: nat, dstX: nat, dstY: nat,
                  w: nat, h: nat)
    requires srcX < width && srcY < height && dstX < width && dstY < height
    requires Done(b, m, width * DEPTH, height, srcX * DEPTH, srcY, dstX * DEPTH, dstY,
                  Min(w, Min(width - srcX, width - dstX)) * DEPTH, Min(h, Min(height - srcY, height - dstY)))
    ensures Shaped(b, width * DEPTH, height) && Shaped(m, width * DEPTH, height)
    ensures forall x: nat, y: nat | x < width && y < height ::
              Pixel(m, width, height, x, y) == Moved(b, width, height, srcX, srcY, dstX, dstY, w, h, x, y)
  {
    hide Row, Pixel, RowAt;
    forall x: nat, y: nat | x < width && y < height
      ensures Pixel(m, width, height, x, y) == Moved(b, width, height, srcX, srcY, dstX, dstY, w, h, x, y)
    {
      PixelBlit(b, m, width, height, srcX, srcY, dstX, dstY, Min(w, Min(width - srcX, width - dstX)),
                Min(h, Min(height - srcY, height - dstY)), x, y);
    }
  }

  /** In pixels: each destination pixel holds what the source pixel held before, and no other pixel changes. */
  lemma PixelBlit(b: seq<byte>, m: seq<byte>, width: nat, height: nat, srcX: nat, srcY: nat, dstX: nat, dstY: nat,
                  w: nat, h: nat, x: nat, y: nat)
    requires Shaped(b, width * DEPTH, height) && Shaped(m, width * DEPTH, height) && x < width && y < height
    requires srcX + w <= width && srcY + h <= height && dstX + w <= width && dstY + h <= height
    requires Row(m, width * DEPTH, height, y) ==
             Blitted(b, width * DEPTH, height, srcX * DEPTH, srcY, dstX * DEPTH, dstY, w * DEPTH, h, y)
    ensures Pixel(m, width, height, x, y) ==
            if dstX <= x < dstX + w && dstY <= y < dstY + h
            then Pixel(b, width, height, x - dstX + srcX, y - dstY + srcY) else Pixel(b, width, height, x, y)
  {
    hide Row;
    var r := Row(b, width * DEPTH, height, y);
    if dstY <= y < dstY + h {
      var s := Row(b, width * DEPTH, height, y - dstY + srcY);
      PixelSplice(r, s, x, srcX, dstX, w);
    }
  }

  lemma PixelSplice(r: seq<byte>, s: seq<byte>, x: nat, srcX: nat, dstX: nat, w: nat)
    requires |r| == |s| && x * DEPTH + DEPTH <= |r| && (srcX + w) * DEPTH <= |s| && (dstX + w) * DEPTH <= |r|
    ensures U32(Splice(r, dstX * DEPTH, s[srcX * DEPTH..srcX * DEPTH + w * DEPTH]), x * DEPTH) ==
            if dstX <= x < dstX + w then U32(s, (x - dstX + srcX) * DEPTH) else U32(r, x * DEPTH)
  {
    var piece := s[srcX * DEPTH..srcX * DEPTH + w * DEPTH];
    var t := Splice(r, dstX * DEPTH, piece);
    assert forall k | dstX * DEPTH <= k < dstX * DEPTH + w * DEPTH ::
        t[k] == t[dstX * DEPTH..dstX * DEPTH + |piece|][k - dstX * DEPTH];
  }
}
