/**
 Where the bytes of an image live: host rows, pitch-linear rows, and the block-linear order of
 16-byte by 2-row sectors inside 64-byte by 8-row GOBs stacked into blocks.
 */
module ImageLayout {
  import opened Primitives

  const GOB_BYTES: nat := 512

  datatype Layout =
    | PitchLinear(rowPitch: u64, layerStride: u64)
    | BlockLinear(widthLog2: nat, heightLog2: nat, depthLog2: nat, layerStride: u64)

  datatype Shape = Shape(width: u32, height: u32, layers: u32, bytesPerTexel: u64, hostRowPitch: u32)

  /** Image extents are never zero. */
  ghost predicate SoundShape(shape: Shape) {
    shape.width > 0 && shape.height > 0 && shape.layers > 0 && shape.bytesPerTexel > 0
  }

  function RowBytes(shape: Shape): (r: nat)
    requires SoundShape(shape)
    ensures r > 0
  {
    MulAtMost(1, shape.width, shape.bytesPerTexel);
    shape.width * shape.bytesPerTexel
  }

  /** A byte of the image: its layer, row and byte column. */
  datatype Position = Position(layer: nat, y: nat, x: nat)

  predicate Inside(p: Position, shape: Shape)
    requires SoundShape(shape)
  {
    p.layer < shape.layers && p.y < shape.height && p.x < RowBytes(shape)
  }

  function LinearOffset(shape: Shape, p: Position): nat {
    p.layer * (shape.hostRowPitch * shape.height) + p.y * shape.hostRowPitch + p.x
  }

  function PitchOffset(rowPitch: nat, layerStride: nat, p: Position): nat {
    p.layer * layerStride + p.y * rowPitch + p.x
  }

  function WidthInGobs(rowBytes: nat): nat {
    AlignUp(rowBytes, 64) / 64
  }

  lemma ProductNat(a: nat, b: nat)
    ensures a * b >= 0
  {
  }

  function BlockRowOffset(row: nat, blockHeight: nat, widthInGobs: nat): nat {
    ProductNat(row * GOB_BYTES, blockHeight);
    ProductNat(row * GOB_BYTES * blockHeight, widthInGobs);
    row * GOB_BYTES * blockHeight * widthInGobs
  }

  function BlockColumnOffset(column: nat, blockHeight: nat): nat {
    ProductNat(column * GOB_BYTES, blockHeight);
    column * GOB_BYTES * blockHeight
  }

  /** The byte inside one GOB; it depends only on the column within 64 and the row within 8. */
  function GobByte(p: Position): (r: nat)
    ensures r < GOB_BYTES
  {
    p.x % 64 / 32 * 256 + p.y % 8 / 2 * 64 + p.x % 32 / 16 * 32 + p.y % 2 * 16 + p.x % 16
  }

  /** The nine terms of the block-linear address. */
  function BlockOffset(layerStride: nat, widthInGobs: nat, blockHeight: nat, p: Position): nat
    requires blockHeight > 0
  {
    ProductNat(p.layer, layerStride);
    p.layer * layerStride
    + BlockRowOffset(p.y / (8 * blockHeight), blockHeight, widthInGobs)
    + BlockColumnOffset(p.x / 64, blockHeight)
    + p.y % (8 * blockHeight) / 8 * GOB_BYTES
    + GobByte(p)
  }

  function CanonicalOffset(layout: Layout, shape: Shape, p: Position): nat
    requires SoundShape(shape)
  {
    match layout
    case PitchLinear(rowPitch, layerStride) => PitchOffset(rowPitch, layerStride, p)
    case BlockLinear(_, heightLog2, _, layerStride) =>
      PositivePower(heightLog2);
      BlockOffset(layerStride, WidthInGobs(RowBytes(shape)), Pow2(heightLog2), p)
  }

  lemma {:induction false} PositivePower(k: nat)
    ensures Pow2(k) > 0
  {
    if k > 0 {
      PositivePower(k - 1);
    }
  }

  // ---- block-linear addresses are distinct --------------------------------------------------

  /** The GOB's number inside its layer: blocks left to right then down, rows of GOBs inside a block. */
  function GobAt(row: nat, column: nat, gobRow: nat, blockHeight: nat, widthInGobs: nat): nat {
    ProductNat(row, widthInGobs);
    ProductNat(row * widthInGobs + column, blockHeight);
    (row * widthInGobs + column) * blockHeight + gobRow
  }

  function GobNumber(widthInGobs: nat, blockHeight: nat, p: Position): nat
    requires blockHeight > 0
  {
    GobAt(p.y / (8 * blockHeight), p.x / 64, p.y % (8 * blockHeight) / 8, blockHeight, widthInGobs)
  }

  function GobColumn(b: nat): nat {
    b / 256 * 32 + b / 32 % 2 * 16 + b % 16
  }

  function GobRow(b: nat): nat {
    b / 64 % 4 * 2 + b / 16 % 2
  }

  lemma GobByteDecodes(p: Position)
    ensures GobColumn(GobByte(p)) == p.x % 64
    ensures GobRow(GobByte(p)) == p.y % 8
  {
    ColumnDigits(p.x);
    RowOfGobDigits(p.y);
    SectorDigits(p.x % 64 / 32, p.y % 8 / 2, p.x % 32 / 16, p.y % 2, p.x % 16);
  }

  lemma RowOfGobDigits(y: nat)
    ensures y % 8 == y % 8 / 2 * 2 + y % 2 && y % 8 / 2 < 4
  {
    DivModUnique(y, 2, y / 8 * 4 + y % 8 / 2, y % 8 % 2);
  }

  lemma ColumnDigits(x: nat)
    ensures x % 64 == x % 64 / 32 * 32 + x % 32 / 16 * 16 + x % 16
    ensures x % 64 / 32 < 2 && x % 32 / 16 < 2
  {
    var k, r := x / 64, x % 64;
    DivModUnique(x, 32, k * 2 + r / 32, r % 32);
    DivModUnique(x, 16, k * 4 + r / 16, r % 16);
    SmallColumn(r);
  }

  lemma SmallColumn(r: nat)
    requires r < 64
    ensures r == r / 32 * 32 + r % 32 / 16 * 16 + r % 16
  {
    DivModUnique(r % 32, 16, r % 32 / 16, r % 16);
  }

  lemma SectorDigits(a: nat, b: nat, c: nat, d: nat, e: nat)
    requires a < 2 && b < 4 && c < 2 && d < 2 && e < 16
    ensures GobColumn(a * 256 + b * 64 + c * 32 + d * 16 + e) == a * 32 + c * 16 + e
    ensures GobRow(a * 256 + b * 64 + c * 32 + d * 16 + e) == b * 2 + d
  {
    var g := a * 256 + b * 64 + c * 32 + d * 16 + e;
    DivModUnique(g, 256, a, b * 64 + c * 32 + d * 16 + e);
    DivModUnique(g, 64, a * 4 + b, c * 32 + d * 16 + e);
    DivModUnique(a * 4 + b, 4, a, b);
    DivModUnique(g, 32, a * 8 + b * 2 + c, d * 16 + e);
    DivModUnique(a * 8 + b * 2 + c, 2, a * 4 + b, c);
    DivModUnique(g, 16, a * 16 + b * 4 + c * 2 + d, e);
    DivModUnique(a * 16 + b * 4 + c * 2 + d, 2, a * 8 + b * 2 + c, d);
  }

  /** The source's nine terms are a layer, a GOB number and a byte inside the GOB. */
  lemma BlockOffsetSplits(layerStride: nat, widthInGobs: nat, blockHeight: nat, p: Position)
    requires blockHeight > 0
    ensures BlockOffset(layerStride, widthInGobs, blockHeight, p)
         == p.layer * layerStride + GobNumber(widthInGobs, blockHeight, p) * GOB_BYTES + GobByte(p)
  {
    Regroup(p.y / (8 * blockHeight), p.x / 64, p.y % (8 * blockHeight) / 8, blockHeight, widthInGobs);
  }

  lemma Regroup(row: nat, column: nat, gobRow: nat, blockHeight: nat, widthInGobs: nat)
    ensures BlockRowOffset(row, blockHeight, widthInGobs) + BlockColumnOffset(column, blockHeight) + gobRow * GOB_BYTES
         == GobAt(row, column, gobRow, blockHeight, widthInGobs) * GOB_BYTES
  {
    assert (row * widthInGobs + column) * blockHeight == row * blockHeight * widthInGobs + column * blockHeight;
    assert row * GOB_BYTES * blockHeight * widthInGobs == row * blockHeight * widthInGobs * GOB_BYTES;
  }

  /** Rows, split the way a block-linear address splits them. */
  lemma RowDigits(y: nat, blockHeight: nat)
    requires blockHeight > 0
    ensures y % (8 * blockHeight) / 8 < blockHeight
    ensures y == (y / (8 * blockHeight) * blockHeight + y % (8 * blockHeight) / 8) * 8 + y % 8
  {
    var q, m := y / (8 * blockHeight), y % (8 * blockHeight);
    assert y == q * (8 * blockHeight) + m;
    assert q * (8 * blockHeight) == q * blockHeight * 8;
    assert m == m / 8 * 8 + m % 8;
    DivModUnique(y, 8, q * blockHeight + m / 8, m % 8);
  }

  /** Everything but the layer can be read back from the GOB number and the byte inside the GOB. */
  lemma GobNumberDecodes(widthInGobs: nat, blockHeight: nat, p: Position)
    requires blockHeight > 0 && p.x / 64 < widthInGobs
    ensures var n := GobNumber(widthInGobs, blockHeight, p);
            && n % blockHeight == p.y % (8 * blockHeight) / 8
            && n / blockHeight % widthInGobs == p.x / 64
            && n / blockHeight / widthInGobs == p.y / (8 * blockHeight)
  {
    RowDigits(p.y, blockHeight);
    GobAtDecodes(p.y / (8 * blockHeight), p.x / 64, p.y % (8 * blockHeight) / 8, blockHeight, widthInGobs);
  }

  lemma GobAtDecodes(row: nat, column: nat, gobRow: nat, blockHeight: nat, widthInGobs: nat)
    requires gobRow < blockHeight && column < widthInGobs
    ensures var n := GobAt(row, column, gobRow, blockHeight, widthInGobs);
            && n % blockHeight == gobRow
            && n / blockHeight % widthInGobs == column
            && n / blockHeight / widthInGobs == row
  {
    var block := row * widthInGobs + column;
    DivModUnique(GobAt(row, column, gobRow, blockHeight, widthInGobs), blockHeight, block, gobRow);
    DivModUnique(block, widthInGobs, row, column);
  }

  /** Within a layer, position and block-linear offset determine each other. */
  lemma GobInjective(widthInGobs: nat, blockHeight: nat, p: Position, q: Position)
    requires blockHeight > 0 && p.x / 64 < widthInGobs && q.x / 64 < widthInGobs
    requires GobNumber(widthInGobs, blockHeight, p) == GobNumber(widthInGobs, blockHeight, q)
    requires GobByte(p) == GobByte(q)
    ensures p.y == q.y && p.x == q.x
  {
    GobNumberDecodes(widthInGobs, blockHeight, p);
    GobNumberDecodes(widthInGobs, blockHeight, q);
    GobByteDecodes(p);
    GobByteDecodes(q);
    RowDigits(p.y, blockHeight);
    RowDigits(q.y, blockHeight);
    assert p.x == p.x / 64 * 64 + p.x % 64 && q.x == q.x / 64 * 64 + q.x % 64;
  }

  ghost function CeilDiv(a: nat, d: nat): nat
    requires d > 0
  {
    (a + d - 1) / d
  }

  lemma CeilAbove(y: nat, h: nat, d: nat)
    requires d > 0 && y < h
    ensures y / d < CeilDiv(h, d)
  {
    var k := CeilDiv(h, d);
    assert h <= k * d;
    if k <= y / d {
      MulAtMost(k, y / d, d);
    }
  }

  function BlockFootprint(blocksDown: nat, widthInGobs: nat, blockHeight: nat): nat {
    ProductNat(blocksDown, widthInGobs);
    ProductNat(blocksDown * widthInGobs, blockHeight);
    blocksDown * widthInGobs * blockHeight * GOB_BYTES
  }

  lemma GobAtBelow(row: nat, column: nat, gobRow: nat, blockHeight: nat, widthInGobs: nat, blocksDown: nat)
    requires row < blocksDown && column < widthInGobs && gobRow < blockHeight
    ensures GobAt(row, column, gobRow, blockHeight, widthInGobs) < blocksDown * widthInGobs * blockHeight
  {
    MulBelow(row, blocksDown, widthInGobs);
    MulBelow(row * widthInGobs + column, blocksDown * widthInGobs, blockHeight);
  }

  lemma GobInFootprint(widthInGobs: nat, blockHeight: nat, height: nat, p: Position)
    requires blockHeight > 0 && p.x / 64 < widthInGobs && p.y < height
    ensures GobNumber(widthInGobs, blockHeight, p) * GOB_BYTES + GobByte(p)
          < BlockFootprint(CeilDiv(height, 8 * blockHeight), widthInGobs, blockHeight)
  {
    RowDigits(p.y, blockHeight);
    CeilAbove(p.y, height, 8 * blockHeight);
    GobAtBelow(p.y / (8 * blockHeight), p.x / 64, p.y % (8 * blockHeight) / 8, blockHeight, widthInGobs,
      CeilDiv(height, 8 * blockHeight));
  }

  lemma ColumnInWidth(x: nat, rowBytes: nat)
    requires x < rowBytes
    ensures x / 64 < WidthInGobs(rowBytes)
  {
    assert WidthInGobs(rowBytes) == (rowBytes + 63) / 64;
  }

  /** Rows and layers are spaced far enough apart that no two image bytes share an address. */
  ghost predicate Roomy(layout: Layout, shape: Shape)
    requires SoundShape(shape)
  {
    match layout
    case PitchLinear(rowPitch, layerStride) =>
      rowPitch >= RowBytes(shape) && layerStride >= shape.height * rowPitch
    case BlockLinear(_, heightLog2, _, layerStride) =>
      PositivePower(heightLog2);
      layerStride >= BlockFootprint(CeilDiv(shape.height, 8 * Pow2(heightLog2)), WidthInGobs(RowBytes(shape)), Pow2(heightLog2))
  }

  lemma RowBelow(y: nat, x: nat, height: nat, pitch: nat, stride: nat)
    requires y < height && x < pitch && height * pitch <= stride
    ensures y * pitch + x < stride
  {
    MulBelow(y, height, pitch);
  }

  lemma PitchInjective(pitch: nat, stride: nat, height: nat, p: Position, q: Position)
    requires p.x < pitch && q.x < pitch && p.y < height && q.y < height && height * pitch <= stride
    requires PitchOffset(pitch, stride, p) == PitchOffset(pitch, stride, q)
    ensures p == q
  {
    RowBelow(p.y, p.x, height, pitch, stride);
    RowBelow(q.y, q.x, height, pitch, stride);
    DivModUnique(PitchOffset(pitch, stride, p), stride, p.layer, p.y * pitch + p.x);
    DivModUnique(PitchOffset(pitch, stride, q), stride, q.layer, q.y * pitch + q.x);
    DivModUnique(p.y * pitch + p.x, pitch, p.y, p.x);
    DivModUnique(q.y * pitch + q.x, pitch, q.y, q.x);
  }

  lemma BlockInjective(stride: nat, rowBytes: nat, blockHeight: nat, height: nat, p: Position, q: Position)
    requires blockHeight > 0 && p.x < rowBytes && q.x < rowBytes && p.y < height && q.y < height
    requires BlockFootprint(CeilDiv(height, 8 * blockHeight), WidthInGobs(rowBytes), blockHeight) <= stride
    requires BlockOffset(stride, WidthInGobs(rowBytes), blockHeight, p) == BlockOffset(stride, WidthInGobs(rowBytes), blockHeight, q)
    ensures p == q
  {
    var w := WidthInGobs(rowBytes);
    ColumnInWidth(p.x, rowBytes);
    ColumnInWidth(q.x, rowBytes);
    BlockOffsetSplits(stride, w, blockHeight, p);
    BlockOffsetSplits(stride, w, blockHeight, q);
    GobInFootprint(w, blockHeight, height, p);
    GobInFootprint(w, blockHeight, height, q);
    SplitInjective(stride, p.layer, GobNumber(w, blockHeight, p), GobByte(p), q.layer, GobNumber(w, blockHeight, q), GobByte(q));
    GobInjective(w, blockHeight, p, q);
  }

  lemma SplitInjective(stride: nat, l: nat, n: nat, b: nat, l': nat, n': nat, b': nat)
    requires b < GOB_BYTES && b' < GOB_BYTES
    requires n * GOB_BYTES + b < stride && n' * GOB_BYTES + b' < stride
    requires l * stride + n * GOB_BYTES + b == l' * stride + n' * GOB_BYTES + b'
    ensures l == l' && n == n' && b == b'
  {
    DivModUnique(l * stride + (n * GOB_BYTES + b), stride, l, n * GOB_BYTES + b);
    DivModUnique(l * stride + (n * GOB_BYTES + b), stride, l', n' * GOB_BYTES + b');
  }

  /** No two bytes of an image share a canonical address. */
  lemma CanonicalInjective(layout: Layout, shape: Shape, p: Position, q: Position)
    requires SoundShape(shape) && Roomy(layout, shape) && Inside(p, shape) && Inside(q, shape)
    requires CanonicalOffset(layout, shape, p) == CanonicalOffset(layout, shape, q)
    ensures p == q
  {
    match layout {
      case PitchLinear(rowPitch, layerStride) =>
        PitchInjective(rowPitch, layerStride, shape.height, p, q);
      case BlockLinear(_, heightLog2, _, layerStride) =>
        PositivePower(heightLog2);
        BlockInjective(layerStride, RowBytes(shape), Pow2(heightLog2), shape.height, p, q);
    }
  }

  lemma LinearInjective(shape: Shape, p: Position, q: Position)
    requires SoundShape(shape) && shape.hostRowPitch >= RowBytes(shape) && Inside(p, shape) && Inside(q, shape)
    requires LinearOffset(shape, p) == LinearOffset(shape, q)
    ensures p == q
  {
    assert shape.hostRowPitch * shape.height == shape.height * shape.hostRowPitch;
    PitchInjective(shape.hostRowPitch, shape.hostRowPitch * shape.height, shape.height, p, q);
  }

  // ---- runs of sixteen bytes ----------------------------------------------------------------

  /** Up to the next multiple of sixteen, consecutive columns have consecutive addresses. */
  lemma SectorIsContiguous(layerStride: nat, widthInGobs: nat, blockHeight: nat, p: Position, j: nat)
    requires blockHeight > 0 && p.x % 16 + j < 16
    ensures BlockOffset(layerStride, widthInGobs, blockHeight, p.(x := p.x + j))
         == BlockOffset(layerStride, widthInGobs, blockHeight, p) + j
  {
    SameSector(p.x, j);
  }

  lemma SameSector(x: nat, j: nat)
    requires x % 16 + j < 16
    ensures (x + j) / 64 == x / 64
    ensures (x + j) % 64 / 32 == x % 64 / 32
    ensures (x + j) % 32 / 16 == x % 32 / 16
    ensures (x + j) % 16 == x % 16 + j
  {
    var q, r := x / 16, x % 16;
    var k := q / 4;
    DivModUnique(x, 64, k, q % 4 * 16 + r);
    DivModUnique(x + j, 64, k, q % 4 * 16 + r + j);
    DivModUnique(x, 32, q / 2, q % 2 * 16 + r);
    DivModUnique(x + j, 32, q / 2, q % 2 * 16 + r + j);
    DivModUnique(x + j, 16, q, r + j);
    SectorHalf(q % 4, r, j);
    SectorParity(q % 2, r, j);
  }

  lemma SectorHalf(q: nat, r: nat, j: nat)
    requires q < 4 && r + j < 16
    ensures (q * 16 + r + j) / 32 == (q * 16 + r) / 32
  {
  }

  lemma SectorParity(q: nat, r: nat, j: nat)
    requires q < 2 && r + j < 16
    ensures (q * 16 + r + j) / 16 == (q * 16 + r) / 16
  {
  }
}
