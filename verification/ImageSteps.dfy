/**
 Image addresses told without their formulas: where the first byte is, how far each step of a position
 moves its address, and which addresses a block-linear image fills.
 */
module ImageSteps {
  import opened Primitives
  import opened ImageLayout

  // ---- rows and widths ----------------------------------------------------------------------

  /** A row holds its texels one after another. */
  lemma RowHoldsTexels(shape: Shape, texel: nat, byte: nat)
    requires SoundShape(shape) && byte < shape.bytesPerTexel
    ensures texel * shape.bytesPerTexel + byte < RowBytes(shape) <==> texel < shape.width
  {
    if texel < shape.width {
      MulBelow(texel, shape.width, shape.bytesPerTexel);
    } else {
      MulAtMost(shape.width, texel, shape.bytesPerTexel);
    }
  }

  /** The width in GOBs is the least number of 64-byte columns that holds a row. */
  lemma WidthIsLeast(rowBytes: nat, w: nat)
    ensures rowBytes <= 64 * w <==> WidthInGobs(rowBytes) <= w
  {
    assert WidthInGobs(rowBytes) == (rowBytes + 63) / 64;
  }

  // ---- steps of linear addresses ------------------------------------------------------------

  lemma PitchSteps(rowPitch: nat, layerStride: nat, p: Position)
    ensures PitchOffset(rowPitch, layerStride, Position(0, 0, 0)) == 0
    ensures PitchOffset(rowPitch, layerStride, p.(x := p.x + 1)) == PitchOffset(rowPitch, layerStride, p) + 1
    ensures PitchOffset(rowPitch, layerStride, p.(y := p.y + 1)) == PitchOffset(rowPitch, layerStride, p) + rowPitch
    ensures PitchOffset(rowPitch, layerStride, p.(layer := p.layer + 1)) == PitchOffset(rowPitch, layerStride, p) + layerStride
  {
    OneMore(p.y, rowPitch);
    OneMore(p.layer, layerStride);
  }

  /** Host rows follow each other at the host pitch, layers after all rows. */
  lemma LinearSteps(shape: Shape, p: Position)
    ensures LinearOffset(shape, Position(0, 0, 0)) == 0
    ensures LinearOffset(shape, p.(x := p.x + 1)) == LinearOffset(shape, p) + 1
    ensures LinearOffset(shape, p.(y := p.y + 1)) == LinearOffset(shape, p) + shape.hostRowPitch
    ensures LinearOffset(shape, Position(p.layer + 1, 0, p.x)) == LinearOffset(shape, Position(p.layer, shape.height, p.x))
  {
    OneMore(p.y, shape.hostRowPitch);
    OneMore(p.layer, shape.hostRowPitch * shape.height);
    assert shape.height * shape.hostRowPitch == shape.hostRowPitch * shape.height;
  }

  lemma OneMore(k: nat, d: nat)
    ensures (k + 1) * d == k * d + d
  {
  }

  // ---- steps of block-linear addresses ------------------------------------------------------

  lemma OneMoreProduct(k: nat, a: nat, b: nat, c: nat)
    ensures (k + 1) * a * b * c == k * a * b * c + a * b * c
  {
    OneMore(k, a);
    assert (k * a + a) * b == k * a * b + a * b;
    assert (k * a * b + a * b) * c == k * a * b * c + a * b * c;
  }

  lemma DivStep(x: nat, d: nat)
    requires d > 0
    ensures (x + d) / d == x / d + 1 && (x + d) % d == x % d
  {
    DivModUnique(x + d, d, x / d + 1, x % d);
  }

  /** A step by a multiple of a smaller period leaves the remainder by it. */
  lemma SamePeriod(x: nat, n: nat, d: nat)
    requires d > 0
    ensures (x + n * d) % d == x % d
  {
    DivModUnique(x + n * d, d, x / d + n, x % d);
  }

  /** The next column of GOBs is one block of GOBs further. */
  lemma ColumnStep(layerStride: nat, w: nat, h: nat, p: Position)
    requires h > 0
    ensures BlockOffset(layerStride, w, h, p.(x := p.x + 64)) == BlockOffset(layerStride, w, h, p) + 512 * h
  {
    DivStep(p.x, 64);
    SamePeriod(p.x, 2, 32);
    SamePeriod(p.x, 4, 16);
    OneMoreProduct(p.x / 64, 512, h, 1);
  }

  /** The next row of blocks is a whole row of blocks further. */
  lemma BlockRowStep(layerStride: nat, w: nat, h: nat, p: Position)
    requires h > 0
    ensures 512 * h * w >= 0
    ensures BlockOffset(layerStride, w, h, p.(y := p.y + 8 * h)) == BlockOffset(layerStride, w, h, p) + 512 * h * w
  {
    DivStep(p.y, 8 * h);
    SamePeriod(p.y, h, 8);
    SamePeriod(p.y, 4 * h, 2);
    OneMoreProduct(p.y / (8 * h), 512, h, w);
  }

  /** Inside a block the next row of GOBs is one GOB further. */
  lemma GobRowStep(layerStride: nat, w: nat, h: nat, p: Position)
    requires h > 0 && p.y % (8 * h) + 8 < 8 * h
    ensures BlockOffset(layerStride, w, h, p.(y := p.y + 8)) == BlockOffset(layerStride, w, h, p) + 512
  {
    GobRowTerms(p.y, h);
    SameGobByteRows(p, 1);
  }

  lemma GobRowTerms(y: nat, h: nat)
    requires h > 0 && y % (8 * h) + 8 < 8 * h
    ensures (y + 8) / (8 * h) == y / (8 * h) && (y + 8) % (8 * h) / 8 == y % (8 * h) / 8 + 1
  {
    NearRow(y, 8 * h);
    DivStep(y % (8 * h), 8);
  }

  lemma NearRow(y: nat, d: nat)
    requires d > 0 && y % d + 8 < d
    ensures (y + 8) / d == y / d && (y + 8) % d == y % d + 8
  {
    DivModUnique(y + 8, d, y / d, y % d + 8);
  }

  /** Whole GOBs down leave the byte inside the GOB. */
  lemma SameGobByteRows(p: Position, n: nat)
    ensures GobByte(p.(y := p.y + n * 8)) == GobByte(p)
  {
    SamePeriod(p.y, n, 8);
    SamePeriod(p.y, 4 * n, 2);
  }

  lemma SameGobByteColumns(p: Position, n: nat)
    ensures GobByte(p.(x := p.x + n * 64)) == GobByte(p)
  {
    SamePeriod(p.x, n, 64);
    SamePeriod(p.x, 2 * n, 32);
    SamePeriod(p.x, 4 * n, 16);
  }

  lemma LayerStep(layerStride: nat, w: nat, h: nat, p: Position)
    requires h > 0
    ensures BlockOffset(layerStride, w, h, p.(layer := p.layer + 1)) == BlockOffset(layerStride, w, h, p) + layerStride
  {
    OneMore(p.layer, layerStride);
  }

  lemma HalfDigits(a: nat, d: nat, f: nat)
    requires a < 2 && d < 2 && f < 16
    ensures var x := a * 32 + d * 16 + f;
            x % 64 / 32 == a && x % 32 / 16 == d && x % 16 == f
  {
    var x := a * 32 + d * 16 + f;
    DivModUnique(x, 64, 0, x);
    DivModUnique(x, 32, a, d * 16 + f);
    DivModUnique(d * 16 + f, 16, d, f);
    DivModUnique(x, 16, a * 2 + d, f);
  }

  lemma PairDigits(c: nat, e: nat)
    requires c < 4 && e < 2
    ensures var y := c * 2 + e;
            y % 8 / 2 == c && y % 2 == e
  {
  }

  /** Inside a GOB: halves of 32 columns, pairs of rows, sectors of 16 columns, rows of a pair, bytes. */
  lemma GobByteOf(layer: nat, a: nat, c: nat, d: nat, e: nat, f: nat)
    requires a < 2 && c < 4 && d < 2 && e < 2 && f < 16
    ensures GobByte(Position(layer, c * 2 + e, a * 32 + d * 16 + f)) == a * 256 + c * 64 + d * 32 + e * 16 + f
  {
    HalfDigits(a, d, f);
    PairDigits(c, e);
  }

  lemma FirstGob(layerStride: nat, w: nat, h: nat, p: Position)
    requires h > 0 && p.layer == 0 && p.x < 64 && p.y < 8
    ensures BlockOffset(layerStride, w, h, p) == GobByte(p)
  {
    DivModUnique(p.y, 8 * h, 0, p.y);
    FirstBlock(h, w);
  }

  lemma FirstBlock(h: nat, w: nat)
    ensures BlockRowOffset(0, h, w) == 0 && BlockColumnOffset(0, h) == 0
  {
  }

  // ---- which addresses are filled -----------------------------------------------------------

  lemma ByteDigits(b: nat) returns (a: nat, c: nat, d: nat, e: nat, f: nat)
    requires b < 512
    ensures a < 2 && c < 4 && d < 2 && e < 2 && f < 16 && b == a * 256 + c * 64 + d * 32 + e * 16 + f
  {
    a, f := b / 256, b % 16;
    var r := b % 256;
    c := r / 64;
    d := r % 64 / 32;
    e := r % 32 / 16;
    LowDigits(r);
    SamePeriod(r, a * 16, 16);
  }

  lemma LowDigits(r: nat)
    requires r < 256
    ensures r == r / 64 * 64 + r % 64 / 32 * 32 + r % 32 / 16 * 16 + r % 16
  {
    DivModUnique(r, 64, r / 64, r % 64);
    DivModUnique(r, 32, r / 64 * 2 + r % 64 / 32, r % 64 % 32);
    DivModUnique(r, 16, r / 32 * 2 + r % 32 / 16, r % 32 % 16);
  }

  /** Each of the 512 bytes of a GOB is behind one column below 64 and one row below 8. */
  lemma GobByteOnto(b: nat) returns (y: nat, x: nat)
    requires b < 512
    ensures y < 8 && x < 64 && GobByte(Position(0, y, x)) == b
  {
    var a, c, d, e, f := ByteDigits(b);
    GobByteOf(0, a, c, d, e, f);
    y, x := c * 2 + e, a * 32 + d * 16 + f;
  }

  lemma MovedGobByte(gobsDown: nat, column: nat, y: nat, x: nat)
    ensures GobByte(Position(0, gobsDown * 8 + y, column * 64 + x)) == GobByte(Position(0, y, x))
  {
    SameGobByteRows(Position(0, y, x), gobsDown);
    SameGobByteColumns(Position(0, y + gobsDown * 8, x), column);
  }

  lemma RowOfGob(row: nat, gobRow: nat, h: nat, y: nat)
    requires gobRow < h && y < 8
    ensures var down := row * (8 * h) + gobRow * 8 + y;
            down / (8 * h) == row && down % (8 * h) / 8 == gobRow && down == (row * h + gobRow) * 8 + y
  {
    DivModUnique(row * (8 * h) + gobRow * 8 + y, 8 * h, row, gobRow * 8 + y);
    DivModUnique(gobRow * 8 + y, 8, gobRow, y);
    assert row * (8 * h) == row * h * 8;
  }

  /** The position at column `x` and row `y` of one GOB, by the place of the GOB. */
  lemma GobOnto(layerStride: nat, w: nat, h: nat, row: nat, column: nat, gobRow: nat, y: nat, x: nat)
    requires gobRow < h && y < 8 && x < 64
    ensures BlockOffset(layerStride, w, h, Position(0, row * (8 * h) + gobRow * 8 + y, column * 64 + x))
         == GobAt(row, column, gobRow, h, w) * 512 + GobByte(Position(0, y, x))
  {
    var p := Position(0, row * (8 * h) + gobRow * 8 + y, column * 64 + x);
    RowOfGob(row, gobRow, h, y);
    DivModUnique(p.x, 64, column, x);
    MovedGobByte(row * h + gobRow, column, y, x);
    BlockOffsetSplits(layerStride, w, h, p);
  }

  lemma Quotient(a: nat, d: nat, k: nat)
    requires d > 0 && a < k * d
    ensures a / d < k && a == a / d * d + a % d
  {
    if k <= a / d {
      MulAtMost(k, a / d, d);
    }
  }

  /**
   `n` rows of blocks, `w` GOBs wide and `h` GOBs high, fill every address below their size: no byte
   of them is skipped.
   */
  lemma BlockOffsetOnto(layerStride: nat, w: nat, h: nat, n: nat, o: nat) returns (p: Position)
    requires w > 0 && h > 0 && n > 0 && o < (64 * w) * (8 * h * n)
    ensures p.layer == 0 && p.x < 64 * w && p.y < 8 * h * n
    ensures BlockOffset(layerStride, w, h, p) == o
  {
    FootprintSize(w, h, n);
    var row, column, gobRow := GobPlace(w, h, n, o);
    p := PlacedByte(layerStride, w, h, n, row, column, gobRow, o % 512);
  }

  lemma PlacedByte(layerStride: nat, w: nat, h: nat, n: nat, row: nat, column: nat, gobRow: nat, b: nat) returns (p: Position)
    requires row < n && column < w && gobRow < h && b < 512
    ensures p.layer == 0 && p.x < 64 * w && p.y < 8 * h * n
    ensures BlockOffset(layerStride, w, h, p) == GobAt(row, column, gobRow, h, w) * 512 + b
  {
    var y, x := GobByteOnto(b);
    PositionInside(row, gobRow, h, n, y);
    GobOnto(layerStride, w, h, row, column, gobRow, y, x);
    p := Position(0, row * (8 * h) + gobRow * 8 + y, column * 64 + x);
  }

  lemma FootprintSize(w: nat, h: nat, n: nat)
    ensures (64 * w) * (8 * h * n) == n * w * h * 512
  {
    assert 64 * w * (8 * h * n) == 512 * (w * (h * n));
    assert w * (h * n) == n * w * h;
  }

  lemma GobPlace(w: nat, h: nat, n: nat, o: nat) returns (row: nat, column: nat, gobRow: nat)
    requires w > 0 && h > 0 && o < n * w * h * 512
    ensures row < n && column < w && gobRow < h && GobAt(row, column, gobRow, h, w) * 512 + o % 512 == o
  {
    Quotient(o, 512, n * w * h);
    var gob := o / 512;
    Quotient(gob, h, n * w);
    var block := gob / h;
    Quotient(block, w, n);
    row, column, gobRow := block / w, block % w, gob % h;
  }

  lemma PositionInside(row: nat, gobRow: nat, h: nat, n: nat, y: nat)
    requires row < n && gobRow < h && y < 8
    ensures row * (8 * h) + gobRow * 8 + y < 8 * h * n
  {
    MulBelow(row, n, 8 * h);
    assert n * (8 * h) == 8 * h * n;
  }

  // ---- the two layouts ----------------------------------------------------------------------

  lemma PitchLayoutSteps(shape: Shape, rowPitch: u64, layerStride: u64, p: Position)
    requires SoundShape(shape)
    ensures var layout := PitchLinear(rowPitch, layerStride);
            && CanonicalOffset(layout, shape, Position(0, 0, 0)) == 0
            && CanonicalOffset(layout, shape, p.(x := p.x + 1)) == CanonicalOffset(layout, shape, p) + 1
            && CanonicalOffset(layout, shape, p.(y := p.y + 1)) == CanonicalOffset(layout, shape, p) + rowPitch
            && CanonicalOffset(layout, shape, p.(layer := p.layer + 1)) == CanonicalOffset(layout, shape, p) + layerStride
  {
    PitchSteps(rowPitch, layerStride, p);
  }

  /**
   Outside the GOB: 64 columns are a block of GOBs apart, a block of rows is as many of those as hold
   a row, layers are a stride apart.
   */
  lemma BlockLayoutSteps(shape: Shape, widthLog2: nat, heightLog2: nat, depthLog2: nat, layerStride: u64, p: Position, w: nat)
    requires SoundShape(shape) && 64 * w >= RowBytes(shape) > 64 * (w - 1)
    ensures var layout, h := BlockLinear(widthLog2, heightLog2, depthLog2, layerStride), Pow2(heightLog2);
            && h > 0
            && CanonicalOffset(layout, shape, p.(x := p.x + 64)) == CanonicalOffset(layout, shape, p) + 512 * h
            && CanonicalOffset(layout, shape, p.(y := p.y + 8 * h)) == CanonicalOffset(layout, shape, p) + 512 * h * w
            && CanonicalOffset(layout, shape, p.(layer := p.layer + 1)) == CanonicalOffset(layout, shape, p) + layerStride
            && (p.y % (8 * h) + 8 < 8 * h ==> CanonicalOffset(layout, shape, p.(y := p.y + 8)) == CanonicalOffset(layout, shape, p) + 512)
            && (p.layer == 0 && p.x < 64 && p.y < 8 ==> CanonicalOffset(layout, shape, p) == GobByte(p))
  {
    PositivePower(heightLog2);
    var h := Pow2(heightLog2);
    BlockSteps(layerStride, w, h, p);
    BlockLinearOffset(shape, widthLog2, heightLog2, depthLog2, layerStride, p, w);
    BlockLinearOffset(shape, widthLog2, heightLog2, depthLog2, layerStride, p.(x := p.x + 64), w);
    BlockLinearOffset(shape, widthLog2, heightLog2, depthLog2, layerStride, p.(y := p.y + 8 * h), w);
    BlockLinearOffset(shape, widthLog2, heightLog2, depthLog2, layerStride, p.(y := p.y + 8), w);
    BlockLinearOffset(shape, widthLog2, heightLog2, depthLog2, layerStride, p.(layer := p.layer + 1), w);
  }

  lemma BlockLinearOffset(shape: Shape, widthLog2: nat, heightLog2: nat, depthLog2: nat, layerStride: u64, p: Position, w: nat)
    requires SoundShape(shape) && 64 * w >= RowBytes(shape) > 64 * (w - 1)
    ensures Pow2(heightLog2) > 0
    ensures CanonicalOffset(BlockLinear(widthLog2, heightLog2, depthLog2, layerStride), shape, p)
         == BlockOffset(layerStride, w, Pow2(heightLog2), p)
  {
    PositivePower(heightLog2);
    WidthIsLeast(RowBytes(shape), w);
    WidthIsLeast(RowBytes(shape), w - 1);
    assert WidthInGobs(RowBytes(shape)) == w;
  }

  lemma BlockSteps(layerStride: nat, w: nat, h: nat, p: Position)
    requires h > 0
    ensures BlockOffset(layerStride, w, h, p.(x := p.x + 64)) == BlockOffset(layerStride, w, h, p) + 512 * h
    ensures BlockOffset(layerStride, w, h, p.(y := p.y + 8 * h)) == BlockOffset(layerStride, w, h, p) + 512 * h * w
    ensures BlockOffset(layerStride, w, h, p.(layer := p.layer + 1)) == BlockOffset(layerStride, w, h, p) + layerStride
    ensures p.y % (8 * h) + 8 < 8 * h ==> BlockOffset(layerStride, w, h, p.(y := p.y + 8)) == BlockOffset(layerStride, w, h, p) + 512
    ensures p.layer == 0 && p.x < 64 && p.y < 8 ==> BlockOffset(layerStride, w, h, p) == GobByte(p)
  {
    ColumnStep(layerStride, w, h, p);
    BlockRowStep(layerStride, w, h, p);
    LayerStep(layerStride, w, h, p);
    if p.y % (8 * h) + 8 < 8 * h {
      GobRowStep(layerStride, w, h, p);
    }
    if p.layer == 0 && p.x < 64 && p.y < 8 {
      FirstGob(layerStride, w, h, p);
    }
  }
}
