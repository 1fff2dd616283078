/** Pure arithmetic of the shadow framebuffer: the 16x16 tile grid laid over
    the damage extents, the byte ranges a box occupies in a buffer with a
    given stride and bytes per pixel, and the sizes of the shadow buffers.

    All coordinates here are non-negative (damage on the screen pixmap lies
    inside the pixmap), so Dafny's `/` agrees with C's truncating `/`. */
module ShadowTiles {
  import opened Regions

  /** The tile edge in pixels (the TILE macro of the diff). */
  const Tile: int := 16

  /** First tile index covering coordinate `v` (tx1 = x1 / TILE). */
  function TileLo(v: int): int { v / Tile }

  /** One past the last tile index covering coordinates below `v`
      (tx2 = (x2 + TILE - 1) / TILE, a rounded-up division). */
  function TileHi(v: int): int { (v + Tile - 1) / Tile }

  /** Extents with non-negative, ordered corners. */
  predicate Placed(e: Box) {
    0 <= e.x1 <= e.x2 && 0 <= e.y1 <= e.y2
  }

  /** Tile (i, j) is one of those the diff visits for extents `e`. */
  predicate InGrid(e: Box, i: int, j: int) {
    TileLo(e.x1) <= i < TileHi(e.x2) && TileLo(e.y1) <= j < TileHi(e.y2)
  }

  /** The size of the rectangle buffer: (tx2 - tx1) * (ty2 - ty1). */
  function Capacity(e: Box): int {
    Mul(TileHi(e.x2) - TileLo(e.x1), TileHi(e.y2) - TileLo(e.y1))
  }

  /** Tile (i, j) clipped to the extents. */
  function TileBox(e: Box, i: int, j: int): Box {
    Box(Max(i * Tile, e.x1), Max(j * Tile, e.y1),
        Min((i + 1) * Tile, e.x2), Min((j + 1) * Tile, e.y2))
  }

  /** The clipped tile that holds pixel `p`. */
  function TileAt(e: Box, p: Point): Box {
    TileBox(e, p.x / Tile, p.y / Tile)
  }

  /** The tile rectangle the diff records for a dirty box. */
  function BoxRect(b: Box): Rect {
    Rect(b.x1, b.y1, b.x2 - b.x1, b.y2 - b.y1)
  }

  /** Two boxes lie apart along one axis, so they share no pixel. */
  predicate Separated(a: Box, b: Box) {
    a.x2 <= b.x1 || b.x2 <= a.x1 || a.y2 <= b.y1 || b.y2 <= a.y1
  }

  /** The tile bounds computed from non-negative extents are ordered. */
  lemma {:induction false} GridBounds(e: Box)
    requires Placed(e)
    ensures 0 <= TileLo(e.x1) <= TileHi(e.x2) && 0 <= TileLo(e.y1) <= TileHi(e.y2)
    ensures Capacity(e) >= 0
  {
    assert TileLo(e.x1) <= TileHi(e.x2);
    assert TileLo(e.y1) <= TileHi(e.y2);
    MulIsProduct(TileHi(e.x2) - TileLo(e.x1), TileHi(e.y2) - TileLo(e.y1));
    MulLe(0, TileHi(e.x2) - TileLo(e.x1), TileHi(e.y2) - TileLo(e.y1));
  }

  /** Every visited tile, clipped, lies within the extents, and it is
      non-empty when the extents are. */
  lemma TileBoxInExtents(e: Box, i: int, j: int)
    requires Placed(e) && InGrid(e, i, j)
    ensures Within(TileBox(e, i, j), e)
    ensures NonEmptyBox(e) ==> NonEmptyBox(TileBox(e, i, j))
  {
  }

  /** A pixel of tile (i, j) determines the tile: i and j are its
      coordinates divided by the tile size. */
  lemma TileIndexOf(e: Box, i: int, j: int, p: Point)
    requires InBox(TileBox(e, i, j), p)
    ensures i == p.x / Tile && j == p.y / Tile
  {
  }

  /** Distinct tiles of the grid share no pixel. */
  lemma {:induction false} TilesDisjoint(e: Box, i: int, j: int, i': int, j': int, p: Point)
    requires i != i' || j != j'
    ensures !(InBox(TileBox(e, i, j), p) && InBox(TileBox(e, i', j'), p))
  {
    if InBox(TileBox(e, i, j), p) && InBox(TileBox(e, i', j'), p) {
      TileIndexOf(e, i, j, p);
      TileIndexOf(e, i', j', p);
    }
  }

  /** Distinct tiles lie apart along one axis. */
  lemma {:induction false} TilesSeparated(e: Box, i: int, j: int, i': int, j': int)
    requires i != i' || j != j'
    ensures Separated(TileBox(e, i, j), TileBox(e, i', j'))
  {
    if i < i' {
      assert (i + 1) * Tile <= i' * Tile;
    } else if i' < i {
      assert (i' + 1) * Tile <= i * Tile;
    } else if j < j' {
      assert (j + 1) * Tile <= j' * Tile;
    } else {
      assert (j' + 1) * Tile <= j * Tile;
    }
  }

  /** The visited tiles cover the extents: every pixel of the extents lies
      in the clipped tile at its coordinates, and that tile is in the grid. */
  lemma {:induction false} TilesCover(e: Box, p: Point)
    requires Placed(e) && InBox(e, p)
    ensures InGrid(e, p.x / Tile, p.y / Tile)
    ensures InBox(TileAt(e, p), p)
  {
    assert p.x / Tile < TileHi(e.x2);
    assert p.y / Tile < TileHi(e.y2);
  }

  // ---------------------------------------------------------------------
  // Byte layout of a box in a buffer of `stride` bytes per row and `cpp`
  // bytes per pixel.

  /** Offset of the first byte of row `y` of box `b` (y * stride + x1 * cpp). */
  function RowStart(stride: int, cpp: int, b: Box, y: int): int {
    Mul(y, stride) + Mul(b.x1, cpp)
  }

  /** Bytes per row of box `b`: (x2 - x1) * cpp. */
  function RowWidth(cpp: int, b: Box): int {
    Mul(b.x2 - b.x1, cpp)
  }

  predicate InRow(stride: int, cpp: int, b: Box, y: int, k: int) {
    RowStart(stride, cpp, b, y) <= k < RowStart(stride, cpp, b, y) + RowWidth(cpp, b)
  }

  /** Byte `k` belongs to one of the rows y1 <= y < top of box `b`. */
  predicate InRows(stride: int, cpp: int, b: Box, top: int, k: int) {
    exists y | b.y1 <= y < top :: InRow(stride, cpp, b, y, k)
  }

  /** Byte `k` belongs to box `b`. */
  predicate InBoxBytes(stride: int, cpp: int, b: Box, k: int) {
    InRows(stride, cpp, b, b.y2, k)
  }

  /** Box `b` lies inside a buffer of `len` bytes: its rows fit within
      the stride and its last row ends inside the buffer. */
  predicate Fits(stride: int, cpp: int, b: Box, len: int) {
    0 <= b.x1 <= b.x2 && 0 <= b.y1 <= b.y2 && 0 <= cpp && 0 <= stride &&
    Mul(b.x2, cpp) <= stride && Mul(b.y2, stride) <= len
  }

  /** Some byte of box `b` differs between the two buffers. */
  predicate BoxDiffers(o: seq<bv8>, n: seq<bv8>, stride: int, cpp: int, b: Box)
    requires |o| == |n|
  {
    exists k | 0 <= k < |o| :: InBoxBytes(stride, cpp, b, k) && o[k] != n[k]
  }

  /** Some byte of pixel `p` differs between the two buffers. */
  predicate PixelDiffers(o: seq<bv8>, n: seq<bv8>, stride: int, cpp: int, p: Point)
    requires |o| == |n|
  {
    exists c | 0 <= c < cpp ::
      0 <= PixelByte(stride, cpp, p, c) < |o| && o[PixelByte(stride, cpp, p, c)] != n[PixelByte(stride, cpp, p, c)]
  }

  /** Offset of byte `c` of pixel `p`. */
  function PixelByte(stride: int, cpp: int, p: Point, c: int): int {
    Mul(p.y, stride) + Mul(p.x, cpp) + c
  }

  /** The product a * b, written as repeated addition: outside the lemmas
      that relate it to `*`, a product of two variables is a plain term. */
  function Mul(a: int, b: int): int
    decreases if a < 0 then -a else a
  {
    if a == 0 then 0
    else if a > 0 then Mul(a - 1, b) + b
    else Mul(a + 1, b) - b
  }

  lemma {:induction false} MulIsProduct(a: int, b: int)
    ensures Mul(a, b) == a * b
    decreases if a < 0 then -a else a
  {
    if a > 0 {
      MulIsProduct(a - 1, b);
    } else if a < 0 {
      MulIsProduct(a + 1, b);
    }
  }

  /** The byte layout of row `y` of box `b` and the fitting condition, as
      products. */
  lemma Layout(stride: int, cpp: int, b: Box, y: int, len: int)
    ensures RowStart(stride, cpp, b, y) == y * stride + b.x1 * cpp
    ensures RowWidth(cpp, b) == (b.x2 - b.x1) * cpp
    ensures Fits(stride, cpp, b, len) <==>
              0 <= b.x1 <= b.x2 && 0 <= b.y1 <= b.y2 && 0 <= cpp && 0 <= stride &&
              b.x2 * cpp <= stride && b.y2 * stride <= len
  {
    MulIsProduct(y, stride);
    MulIsProduct(b.x1, cpp);
    MulIsProduct(b.x2 - b.x1, cpp);
    MulIsProduct(b.x2, cpp);
    MulIsProduct(b.y2, stride);
  }

  lemma Distribute(a: int, b: int, c: int)
    ensures a * c + b * c == (a + b) * c
  {
  }

  lemma MulLe(a: int, b: int, c: int)
    requires a <= b && 0 <= c
    ensures a * c <= b * c
  {
    assert b * c - a * c == (b - a) * c;
  }

  /** Each row of a fitting box lies in the buffer, within its own stride. */
  lemma {:induction false} RowInBuffer(stride: int, cpp: int, b: Box, len: int, y: int)
    requires Fits(stride, cpp, b, len) && b.y1 <= y < b.y2
    ensures 0 <= RowStart(stride, cpp, b, y)
    ensures 0 <= RowWidth(cpp, b)
    ensures RowStart(stride, cpp, b, y) + RowWidth(cpp, b) <= len
  {
    Layout(stride, cpp, b, y, len);
    MulLe(0, y, stride);
    MulLe(0, b.x1, cpp);
    MulLe(b.x1, b.x2, cpp);
    MulLe(y + 1, b.y2, stride);
    assert RowStart(stride, cpp, b, y) + RowWidth(cpp, b) == y * stride + b.x2 * cpp;
  }

  /** A lower row of one fitting box ends before a higher row of another begins. */
  lemma {:induction false} RowsApart(stride: int, cpp: int, b: Box, b': Box, len: int, y: int, y': int)
    requires Fits(stride, cpp, b, len) && Fits(stride, cpp, b', len)
    requires y < y'
    ensures RowStart(stride, cpp, b, y) + RowWidth(cpp, b) <= RowStart(stride, cpp, b', y')
  {
    Layout(stride, cpp, b, y, len);
    Layout(stride, cpp, b', y', len);
    MulLe(y + 1, y', stride);
    MulLe(0, b'.x1, cpp);
    Distribute(b.x2 - b.x1, b.x1, cpp);
    Distribute(y, 1, stride);
    assert RowStart(stride, cpp, b, y) + RowWidth(cpp, b) == y * stride + b.x2 * cpp;
  }

  /** Boxes that lie apart occupy disjoint bytes of the buffer. */
  lemma {:induction false} BytesDisjoint(stride: int, cpp: int, b: Box, b': Box, len: int, k: int)
    requires Fits(stride, cpp, b, len) && Fits(stride, cpp, b', len)
    requires Separated(b, b')
    ensures !(InBoxBytes(stride, cpp, b, k) && InBoxBytes(stride, cpp, b', k))
  {
    if InBoxBytes(stride, cpp, b, k) && InBoxBytes(stride, cpp, b', k) {
      var y :| b.y1 <= y < b.y2 && InRow(stride, cpp, b, y, k);
      var y' :| b'.y1 <= y' < b'.y2 && InRow(stride, cpp, b', y', k);
      RowsMeetOnce(stride, cpp, b, b', len, y, y', k);
    }
  }

  /** Rows of two separated fitting boxes never share a byte. */
  lemma {:induction false} RowsMeetOnce(stride: int, cpp: int, b: Box, b': Box, len: int, y: int, y': int, k: int)
    requires Fits(stride, cpp, b, len) && Fits(stride, cpp, b', len)
    requires Separated(b, b')
    requires b.y1 <= y < b.y2 && b'.y1 <= y' < b'.y2
    ensures !(InRow(stride, cpp, b, y, k) && InRow(stride, cpp, b', y', k))
  {
    if y < y' {
      RowsApart(stride, cpp, b, b', len, y, y');
    } else if y' < y {
      RowsApart(stride, cpp, b', b, len, y', y);
    } else {
      SameRowApart(stride, cpp, b, b', y, k);
    }
  }

  /** On a shared row, boxes that are separated horizontally have disjoint
      byte ranges. */
  lemma {:induction false} SameRowApart(stride: int, cpp: int, b: Box, b': Box, y: int, k: int)
    requires b'.x2 <= b.x1 || b.x2 <= b'.x1 || !(b.y1 <= y < b.y2 && b'.y1 <= y < b'.y2)
    requires b.y1 <= y < b.y2 && b'.y1 <= y < b'.y2
    requires 0 <= cpp
    ensures !(InRow(stride, cpp, b, y, k) && InRow(stride, cpp, b', y, k))
  {
    Layout(stride, cpp, b, y, 0);
    Layout(stride, cpp, b', y, 0);
    if b'.x2 <= b.x1 {
      MulLe(b'.x2, b.x1, cpp);
      assert RowStart(stride, cpp, b', y) + RowWidth(cpp, b') == y * stride + b'.x2 * cpp;
    } else {
      MulLe(b.x2, b'.x1, cpp);
      assert RowStart(stride, cpp, b, y) + RowWidth(cpp, b) == y * stride + b.x2 * cpp;
    }
  }

  /** The bytes of a pixel of box `b` are bytes of `b`. */
  lemma {:induction false} PixelBytesInBox(stride: int, cpp: int, b: Box, p: Point, c: int)
    requires InBox(b, p) && 0 <= c < cpp
    ensures InBoxBytes(stride, cpp, b, PixelByte(stride, cpp, p, c))
  {
    Layout(stride, cpp, b, p.y, 0);
    MulIsProduct(p.y, stride);
    MulIsProduct(p.x, cpp);
    MulLe(b.x1, p.x, cpp);
    MulLe(p.x + 1, b.x2, cpp);
    assert InRow(stride, cpp, b, p.y, PixelByte(stride, cpp, p, c));
  }

  /** A changed byte of a damaged pixel makes the tile holding that pixel
      differ: this is why the diff never drops a real change. */
  lemma {:induction false} ChangedPixelMarksTile(o: seq<bv8>, n: seq<bv8>, stride: int, cpp: int,
                                                 e: Box, p: Point)
    requires |o| == |n| && Placed(e) && InBox(e, p)
    requires PixelDiffers(o, n, stride, cpp, p)
    ensures BoxDiffers(o, n, stride, cpp, TileAt(e, p))
  {
    TilesCover(e, p);
    var c :| 0 <= c < cpp && 0 <= PixelByte(stride, cpp, p, c) < |o| &&
             o[PixelByte(stride, cpp, p, c)] != n[PixelByte(stride, cpp, p, c)];
    PixelBytesInBox(stride, cpp, TileAt(e, p), p, c);
    var k := PixelByte(stride, cpp, p, c);
    assert InBoxBytes(stride, cpp, TileAt(e, p), k) && o[k] != n[k];
  }

  /** Buffers that agree on the bytes of box `b` differ from a third one on
      `b` alike. */
  lemma {:induction false} BoxDiffersAgree(a: seq<bv8>, a': seq<bv8>, n: seq<bv8>,
                                           stride: int, cpp: int, b: Box)
    requires |a| == |a'| == |n|
    requires forall k | 0 <= k < |a| && InBoxBytes(stride, cpp, b, k) :: a[k] == a'[k]
    ensures BoxDiffers(a, n, stride, cpp, b) <==> BoxDiffers(a', n, stride, cpp, b)
  {
  }

  // ---------------------------------------------------------------------
  // Buffer sizes and the scan-out window.

  /** Bytes per pixel: (bitsPerPixel + 7) >> 3. */
  function BytesPerPixel(bitsPerPixel: nat): nat {
    (bitsPerPixel + 7) / 8
  }

  /** Size of each shadow buffer: displayWidth * virtualY * bytes per pixel. */
  function ShadowSize(displayWidth: nat, virtualY: nat, bitsPerPixel: nat): nat {
    displayWidth * virtualY * BytesPerPixel(bitsPerPixel)
  }

  /** A shadow buffer is large enough for every box of the screen when its
      rows are displayWidth pixels apart. */
  lemma {:induction false} ScreenBoxFits(displayWidth: nat, virtualY: nat, bitsPerPixel: nat, b: Box)
    requires 0 <= b.x1 <= b.x2 <= displayWidth && 0 <= b.y1 <= b.y2 <= virtualY
    ensures Fits(displayWidth * BytesPerPixel(bitsPerPixel), BytesPerPixel(bitsPerPixel), b,
                 ShadowSize(displayWidth, virtualY, bitsPerPixel))
  {
    var cpp := BytesPerPixel(bitsPerPixel);
    Layout(displayWidth * cpp, cpp, b, 0, ShadowSize(displayWidth, virtualY, bitsPerPixel));
    MulLe(b.x2, displayWidth, cpp);
    MulLe(b.y2, virtualY, displayWidth * cpp);
    assert virtualY * (displayWidth * cpp) == displayWidth * virtualY * cpp;
  }

  /** What LS_ShadowWindow hands back: an offset into the kernel's front
      buffer and the window size. */
  datatype Window = Window(offset: int, size: int)

  /** LS_ShadowWindow: the stride is displayWidth * kbpp / 8 bytes, the
      window starts `offset` bytes into row `row` and is one stride long. */
  function ShadowWindow(displayWidth: nat, kbpp: nat, row: nat, offset: nat): (w: Window)
    ensures w.size * 8 <= displayWidth * kbpp < w.size * 8 + 8
    ensures w.offset - offset == row * w.size
  {
    var stride := (displayWidth * kbpp) / 8;
    Window(row * stride + offset, stride)
  }
}
