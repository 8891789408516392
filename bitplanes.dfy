/** Chunky-to-planar packing: every bit `p` of a pixel's palette index goes to
    plane `p`, in the row of the pixel, at bit `7 - x % 8` of byte `x / 8`.
    Rows hold `ceil(width / 8)` bytes rounded up to an even count, and the
    bytes past the last pixel stay zero. */
module Bitplanes {
  import opened Bits
  import opened Raster

  /** Bitplane data, indexed `planes[plane][row][byte]`. */
  type Planes = seq<seq<seq<byte>>>

  /** Bytes in one stored row of a plane: `ceil(width / 8)` plus one pad byte
      when that is odd. It is the least even byte count that holds `width`
      pixels. */
  function RowBytes(width: nat): (r: nat)
    ensures r % 2 == 0 && width <= 8 * r
    ensures r >= 2 ==> 8 * (r - 2) < width
  {
    var bytes := (width + 7) / 8;
    bytes + bytes % 2
  }

  /** Planes needed for `colors` palette entries: `ceil(log2(colors))`; no
      colours give no planes (the floating-point logarithm is minus infinity,
      so the plane loops do not run). */
  function PlaneCount(colors: nat): (n: nat)
    ensures colors <= Pow2(n)
    ensures n > 0 ==> Pow2(n - 1) < colors
  {
    if colors == 0 then 0 else CeilLog2(colors)
  }

  /** `n` planes of `height` rows of `rowBytes` bytes each. */
  predicate Shaped(planes: Planes, n: nat, height: nat, rowBytes: nat)
  {
    |planes| == n &&
    forall q :: 0 <= q < n ==>
      |planes[q]| == height && forall y :: 0 <= y < height ==> |planes[q][y]| == rowBytes
  }

  /** The bit that stands for pixel column `x` in a stored row. */
  function PixelBit(row: seq<byte>, x: nat): (b: nat)
    requires x / 8 < |row|
    ensures b <= 1
  {
    Bit(row[x / 8], 7 - x % 8)
  }

  /** The planes hold image `img` in `n` planes exactly: bit `q` of every
      pixel's index in plane `q`, and zero in every padding column. */
  predicate Packed(planes: Planes, img: Image<nat>, n: nat)
  {
    img.Valid() && Shaped(planes, n, img.height, RowBytes(img.width)) &&
    forall q, y, x :: 0 <= q < n && 0 <= y < img.height && 0 <= x < 8 * RowBytes(img.width) ==>
      PixelBit(planes[q][y], x) == if x < img.width then Bit(img.pixels[y][x], q) else 0
  }

  // ---------------------------------------------------------------------------
  // The rows the packer builds, pixel by pixel

  /** `$row[x / 8] |= 1 << (7 - x % 8)` when `bit` is set; nothing otherwise. */
  function SetPixel(row: seq<byte>, x: nat, bit: nat): (r: seq<byte>)
    requires x / 8 < |row|
    ensures |r| == |row|
  {
    if bit == 1 then row[x / 8 := SetBit(row[x / 8], 7 - x % 8)] else row
  }

  /** Row of plane `q` once the first `x` pixels of `line` are packed into a
      zeroed row of `r` bytes. */
  function PartialRow(line: seq<nat>, q: nat, x: nat, r: nat): (row: seq<byte>)
    requires x <= |line| && x <= 8 * r
    ensures |row| == r
  {
    if x == 0 then Zeros(r)
    else SetPixel(PartialRow(line, q, x - 1, r), x - 1, Bit(line[x - 1], q))
  }

  /** Setting one pixel's bit changes that pixel's bit to `bit` when the bit is
      set and leaves every other pixel's bit alone. */
  lemma {:induction false} SetPixelBits(row: seq<byte>, x: nat, bit: nat, xx: nat)
    requires x / 8 < |row| && xx / 8 < |row| && bit <= 1
    ensures PixelBit(SetPixel(row, x, bit), xx) == if xx == x && bit == 1 then 1 else PixelBit(row, xx)
  {
    if bit == 1 && xx / 8 == x / 8 {
      SetBitBit(row[x / 8], 7 - x % 8, 7 - xx % 8);
    }
  }

  /** After `x` pixels, the row holds exactly their bits, and zero beyond. */
  lemma {:induction false} PartialRowBits(line: seq<nat>, q: nat, x: nat, r: nat, xx: nat)
    requires x <= |line| && x <= 8 * r && xx < 8 * r
    ensures PixelBit(PartialRow(line, q, x, r), xx) == if xx < x then Bit(line[xx], q) else 0
  {
    if x == 0 {
      ZeroBits(7 - xx % 8);
    } else {
      PartialRowBits(line, q, x - 1, r, xx);
      SetPixelBits(PartialRow(line, q, x - 1, r), x - 1, Bit(line[x - 1], q), xx);
    }
  }

  /** How many pixels of row `yy` have gone into plane `q` when the packer is
      at row `y`, column `x`, plane `p`. */
  function Done(width: nat, y: nat, x: nat, p: nat, q: nat, yy: nat): nat
  {
    if yy < y then width else if yy > y then 0 else if q < p then x + 1 else x
  }

  /** The packer's loop invariant: every row of every plane is the partial row
      of the pixels processed so far. */
  predicate Progress(planes: Planes, img: Image<nat>, n: nat, y: nat, x: nat, p: nat)
  {
    img.Valid() && y <= img.height && x <= img.width && (p > 0 ==> x < img.width) &&
    Shaped(planes, n, img.height, RowBytes(img.width)) &&
    forall q, yy :: 0 <= q < n && 0 <= yy < img.height ==>
      planes[q][yy] == PartialRow(img.pixels[yy], q, Done(img.width, y, x, p, q, yy), RowBytes(img.width))
  }

  /** `$planes[p][y][byteOffset] |= 1 << bitOffset`. */
  function OrBit(planes: Planes, p: nat, y: nat, byteOffset: nat, bitOffset: nat): Planes
    requires p < |planes| && y < |planes[p]| && byteOffset < |planes[p][y]| && bitOffset < 8
  {
    planes[p := planes[p][y := planes[p][y][byteOffset := SetBit(planes[p][y][byteOffset], bitOffset)]]]
  }

  /** One step of the innermost loop keeps the invariant. */
  lemma {:induction false} PackStep(planes: Planes, img: Image<nat>, n: nat, y: nat, x: nat, p: nat, bit: nat,
                                    next: Planes, p': nat)
    requires Progress(planes, img, n, y, x, p) && p < n && y < img.height && x < img.width
    requires bit == Bit(img.pixels[y][x], p)
    requires next == (if bit == 1 then OrBit(planes, p, y, x / 8, 7 - x % 8) else planes) && p' == p + 1
    ensures Progress(next, img, n, y, x, p')
  {
    var r := RowBytes(img.width);
    OrPixelFrame(planes, p, y, x, bit, next);
    forall q, yy | 0 <= q < n && 0 <= yy < img.height
      ensures next[q][yy] == PartialRow(img.pixels[yy], q, Done(img.width, y, x, p + 1, q, yy), r)
    {
      if q == p && yy == y {
        assert Done(img.width, y, x, p, q, yy) == x;
        assert Done(img.width, y, x, p + 1, q, yy) == x + 1;
      } else {
        assert Done(img.width, y, x, p + 1, q, yy) == Done(img.width, y, x, p, q, yy);
      }
    }
  }

  /** What setting one pixel's bit, or not, does to the planes. */
  lemma {:induction false} OrPixelFrame(planes: Planes, p: nat, y: nat, x: nat, bit: nat, next: Planes)
    requires p < |planes| && y < |planes[p]| && x / 8 < |planes[p][y]|
    requires next == if bit == 1 then OrBit(planes, p, y, x / 8, 7 - x % 8) else planes
    ensures |next| == |planes| && |next[p]| == |planes[p]|
    ensures forall q :: 0 <= q < |planes| && q != p ==> next[q] == planes[q]
    ensures forall yy :: 0 <= yy < |planes[p]| && yy != y ==> next[p][yy] == planes[p][yy]
    ensures next[p][y] == SetPixel(planes[p][y], x, bit)
  {
  }

  /** Moving to the next column keeps the invariant. */
  lemma {:induction false} NextColumn(planes: Planes, img: Image<nat>, n: nat, y: nat, x: nat)
    requires Progress(planes, img, n, y, x, n) && y < img.height && x < img.width
    ensures Progress(planes, img, n, y, x + 1, 0)
  {
    forall q, yy | 0 <= q < n && 0 <= yy < img.height
      ensures Done(img.width, y, x + 1, 0, q, yy) == Done(img.width, y, x, n, q, yy)
    {
    }
  }

  /** Moving to the next row keeps the invariant. */
  lemma {:induction false} NextRow(planes: Planes, img: Image<nat>, n: nat, y: nat)
    requires Progress(planes, img, n, y, img.width, 0) && y < img.height
    ensures Progress(planes, img, n, y + 1, 0, 0)
  {
    forall q, yy | 0 <= q < n && 0 <= yy < img.height
      ensures Done(img.width, y + 1, 0, 0, q, yy) == Done(img.width, y, img.width, 0, q, yy)
    {
    }
  }

  /** Zeroed planes are where the packer starts. */
  lemma {:induction false} StartProgress(planes: Planes, img: Image<nat>, n: nat)
    requires img.Valid() && Shaped(planes, n, img.height, RowBytes(img.width))
    requires forall q, y :: 0 <= q < n && 0 <= y < img.height ==> planes[q][y] == Zeros(RowBytes(img.width))
    ensures Progress(planes, img, n, 0, 0, 0)
  {
  }

  /** When every row is complete, the planes hold the image. */
  lemma {:induction false} ProgressPacked(planes: Planes, img: Image<nat>, n: nat)
    requires Progress(planes, img, n, img.height, 0, 0)
    ensures Packed(planes, img, n)
  {
    var r := RowBytes(img.width);
    forall q, y, x | 0 <= q < n && 0 <= y < img.height && 0 <= x < 8 * r
      ensures PixelBit(planes[q][y], x) == if x < img.width then Bit(img.pixels[y][x], q) else 0
    {
      PartialRowBits(img.pixels[y], q, img.width, r, x);
    }
  }

  // ---------------------------------------------------------------------------
  // The packer

  /** Planes of zeroed rows of `RowBytes(width)` bytes. */
  method InitializeBitplanes(width: nat, height: nat, count: nat) returns (planes: Planes)
    ensures Shaped(planes, count, height, RowBytes(width))
    ensures forall q, y :: 0 <= q < count && 0 <= y < height ==> planes[q][y] == Zeros(RowBytes(width))
  {
    var rowBytes := (width + 7) / 8;
    var padding := if rowBytes % 2 == 1 then 1 else 0;
    planes := [];
    var plane := 0;
    while plane < count
      invariant plane <= count && |planes| == plane
      invariant forall q :: 0 <= q < plane ==> |planes[q]| == height
      invariant forall q, y :: 0 <= q < plane && 0 <= y < height ==> planes[q][y] == Zeros(RowBytes(width))
    {
      var rows: seq<seq<byte>> := [];
      var y := 0;
      while y < height
        invariant y <= height && |rows| == y
        invariant forall k :: 0 <= k < y ==> rows[k] == Zeros(RowBytes(width))
      {
        rows := rows + [Zeros(rowBytes + padding)];
        y := y + 1;
      }
      planes := planes + [rows];
      plane := plane + 1;
    }
  }

  /** Packs an indexed image into `ceil(log2(|palette|))` planes. */
  method ConvertToBitplanes(img: Image<nat>, palette: seq<Rgb>) returns (planes: Planes)
    requires img.Valid()
    ensures Packed(planes, img, PlaneCount(|palette|))
  {
    var width, height := img.width, img.height;
    var bitplanes := PlaneCount(|palette|);
    planes := InitializeBitplanes(width, height, bitplanes);
    StartProgress(planes, img, bitplanes);
    var y := 0;
    while y < height
      invariant y <= height && Progress(planes, img, bitplanes, y, 0, 0)
    {
      var x := 0;
      while x < width
        invariant x <= width && Progress(planes, img, bitplanes, y, x, 0)
      {
        planes := PackPixel(planes, img, bitplanes, y, x);
        x := x + 1;
      }
      NextRow(planes, img, bitplanes, y);
      y := y + 1;
    }
    ProgressPacked(planes, img, bitplanes);
  }

  /** The body of the column loop: or-ing each of the `n` low bits of the
      pixel's index into its plane. */
  method PackPixel(planes: Planes, img: Image<nat>, n: nat, y: nat, x: nat) returns (next: Planes)
    requires Progress(planes, img, n, y, x, 0) && y < img.height && x < img.width
    ensures Progress(next, img, n, y, x + 1, 0)
  {
    next := planes;
    var colorIndex := img.pixels[y][x];
    var byteOffset := x / 8;
    var bitOffset := 7 - x % 8;
    var plane := 0;
    while plane < n
      invariant plane <= n && Progress(next, img, n, y, x, plane)
    {
      ghost var before, from := next, plane;
      if Bit(colorIndex, plane) == 1 {
        next := OrBit(next, plane, y, byteOffset, bitOffset);
      }
      plane := plane + 1;
      PackStep(before, img, n, y, x, from, Bit(colorIndex, from), next, plane);
    }
    NextColumn(next, img, n, y, x);
  }

  // ---------------------------------------------------------------------------
  // Reading the planes back

  /** The index a display rebuilds for pixel `(x, y)` from the first `m`
      planes: bit `q` taken from plane `q`. */
  function ReadIndex(planes: Planes, y: nat, x: nat, m: nat): nat
    requires m <= |planes|
    requires forall q :: 0 <= q < m ==> y < |planes[q]| && x / 8 < |planes[q][y]|
  {
    if m == 0 then 0 else ReadIndex(planes, y, x, m - 1) + PixelBit(planes[m - 1][y], x) * Pow2(m - 1)
  }

  /** Reading back `m` of the planes gives the pixel's index modulo `2^m`. */
  lemma {:induction false} ReadBack(planes: Planes, img: Image<nat>, n: nat, m: nat, y: nat, x: nat)
    requires Packed(planes, img, n) && m <= n && y < img.height && x < img.width
    ensures ReadIndex(planes, y, x, m) == img.pixels[y][x] % Pow2(m)
  {
    var v := img.pixels[y][x];
    if m == 0 {
      DivModUnique(v, 1, v, 0);
    } else {
      ReadBack(planes, img, n, m - 1, y, x);
      ModMul(v, Pow2(m - 1), 2);
      assert PixelBit(planes[m - 1][y], x) == (v / Pow2(m - 1)) % 2;
    }
  }

  /** An index below the palette size is read back exactly from all planes. */
  lemma {:induction false} ReadBackExact(planes: Planes, img: Image<nat>, colors: nat, y: nat, x: nat)
    requires Packed(planes, img, PlaneCount(colors)) && y < img.height && x < img.width
    requires img.pixels[y][x] < colors
    ensures ReadIndex(planes, y, x, PlaneCount(colors)) == img.pixels[y][x]
  {
    var n := PlaneCount(colors);
    ReadBack(planes, img, n, n, y, x);
    DivModUnique(img.pixels[y][x], Pow2(n), 0, img.pixels[y][x]);
  }

  /** Standard screen widths: 320 pixels take 40 bytes a row, and one more
      pixel takes a padded 42. */
  lemma {:induction false} RowBytesExamples()
    ensures RowBytes(320) == 40 && RowBytes(321) == 42 && RowBytes(0) == 0 && RowBytes(1) == 2
  {
  }
}
