/** DdsFile: the geometry of a DirectDraw Surface — per-mip dimensions,
    pitches and sizes, and where each image, face, mip and slice starts in
    the file — computed as the source does in C#'s int arithmetic, and the
    pixel format an uncompressed header describes. */
module Dds {
  import opened Outcomes
  import opened Binary
  import opened Bits
  import opened Channels
  import opened PixelFormats

  // DdsHeaderFlags
  const HeightFlag: uint32 := 0x2
  const WidthFlag: uint32 := 0x4
  const MipmapCountFlag: uint32 := 0x2_0000
  const DepthFlag: uint32 := 0x80_0000
  const Dimension1: uint32 := 0x4          // Width
  const Dimension2: uint32 := 0x6          // Width | Height
  const Dimension3: uint32 := 0x80_0006    // Width | Height | Depth
  const DimensionMask: uint32 := 0x80_0006 // Width | Height | Depth

  // DdsCaps2: the DDSCAPS2 bits of the DDS file format
  const CubemapFlag: uint32 := 0x200
  const PositiveX: uint32 := 0x400
  const NegativeX: uint32 := 0x800
  const PositiveY: uint32 := 0x1000
  const NegativeY: uint32 := 0x2000
  const PositiveZ: uint32 := 0x4000
  const NegativeZ: uint32 := 0x8000

  // DdsPixelFormatFlags: the DDPF bits of the DDS file format
  const AlphaPixelsFlag: uint32 := 0x1
  const AlphaFlag: uint32 := 0x2
  const FourCcFlag: uint32 := 0x4
  const RgbFlag: uint32 := 0x40
  const YuvFlag: uint32 := 0x200
  const LuminanceFlag: uint32 := 0x2_0000

  /** The legacy header with its magic ("DDS " and DDS_HEADER, 4 + 124
      bytes) and the DDS_HEADER_DXT10 that may follow it. */
  const LegacyHeaderSize: int32 := 128
  const Dxt10HeaderSize: int32 := 20

  datatype PixelFormatHeader = PixelFormatHeader(
    flags: uint32, fourCc: uint32, rgbBitCount: int32,
    rBitMask: uint32, gBitMask: uint32, bBitMask: uint32, aBitMask: uint32)

  datatype Header = Header(
    flags: uint32, height: int32, width: int32, depth: int32, mipMapCount: int32,
    caps2: uint32, pixelFormat: PixelFormatHeader)

  /** The DXT10 header's array size; its format fields only feed the
      format resolver. */
  datatype Dxt10Header = Dxt10Header(arraySize: int32)

  /** What the geometry reads: the legacy header, whether a DXT10 header is
      present, and that header (a default one when absent). */
  datatype Headers = Headers(header: Header, useDxt10: bool, dxt10: Dxt10Header)

  /** What Pitch and SliceSize ask of the pixel format the header resolves
      to: a block-compressed format's block size, or any other format's
      bits per pixel. */
  datatype Layout = BlockCompressed(blockSize: int32) | Linear(bpp: int32)

  /** Enum.HasFlag: every bit of f is set in v. */
  predicate HasFlag(v: uint32, f: uint32)
  {
    And(v, f) == f
  }

  // ---- counts and kinds ----

  function DataOffset(h: Headers): (r: int32)
    ensures r == if h.useDxt10 then 148 else 128
  {
    LegacyHeaderSize + (if h.useDxt10 then Dxt10HeaderSize else 0)
  }

  function NumImages(h: Headers): (r: int32)
    ensures !h.useDxt10 ==> r == 1
  {
    if h.useDxt10 then h.dxt10.arraySize else 1
  }

  function NumMipmaps(h: Headers): (r: int32)
    ensures !HasFlag(h.header.flags, MipmapCountFlag) ==> r == 1
  {
    if HasFlag(h.header.flags, MipmapCountFlag) then h.header.mipMapCount else 1
  }

  predicate IsCubeMap(h: Headers)
  {
    HasFlag(h.header.caps2, CubemapFlag)
  }

  predicate Is1D(h: Headers)
  {
    !IsCubeMap(h) && And(h.header.flags, DimensionMask) == Dimension1
  }

  predicate Is2D(h: Headers)
  {
    !IsCubeMap(h) && And(h.header.flags, DimensionMask) == Dimension2
  }

  predicate Is3D(h: Headers)
  {
    !IsCubeMap(h) && And(h.header.flags, DimensionMask) == Dimension3
  }

  /** At most one of Is1D, Is2D and Is3D holds, and none for a cubemap. */
  lemma {:induction false} DimensionsExclusive(h: Headers)
    ensures !(Is1D(h) && Is2D(h)) && !(Is1D(h) && Is3D(h)) && !(Is2D(h) && Is3D(h))
    ensures IsCubeMap(h) ==> !Is1D(h) && !Is2D(h) && !Is3D(h)
  {
  }

  function Indicator(b: bool): int
  {
    if b then 1 else 0
  }

  /** NumFaces: 1 unless the surface is a cubemap, else one per face flag. */
  function NumFaces(h: Headers): (r: int32)
    ensures 0 <= r <= 6
  {
    var c := h.header.caps2;
    if !IsCubeMap(h) then 1
    else
      (Indicator(HasFlag(c, NegativeX)) + Indicator(HasFlag(c, PositiveX))
       + Indicator(HasFlag(c, NegativeY)) + Indicator(HasFlag(c, PositiveY))
       + Indicator(HasFlag(c, NegativeZ)) + Indicator(HasFlag(c, PositiveZ)))
  }

  /** The six face flags. */
  const FaceFlags: seq<uint32> := [NegativeX, PositiveX, NegativeY, PositiveY, NegativeZ, PositiveZ]

  /** How many of the given flags are set in v. */
  function CountSet(v: uint32, flags: seq<uint32>): (n: nat)
    ensures n <= |flags|
  {
    if flags == [] then 0 else Indicator(HasFlag(v, flags[0])) + CountSet(v, flags[1..])
  }

  /** A cubemap has as many faces as it has face flags set, so between 0 and
      6; any other surface has one. */
  lemma {:induction false} FacesCounted(h: Headers)
    ensures IsCubeMap(h) ==> NumFaces(h) == CountSet(h.header.caps2, FaceFlags) <= 6
    ensures !IsCubeMap(h) ==> NumFaces(h) == 1
  {
    var c := h.header.caps2;
    var s5 := [PositiveZ];
    var s4 := [NegativeZ] + s5;
    var s3 := [PositiveY] + s4;
    var s2 := [NegativeY] + s3;
    var s1 := [PositiveX] + s2;
    assert FaceFlags == [NegativeX] + s1;
    assert CountSet(c, s5) == Indicator(HasFlag(c, PositiveZ)) by { assert s5[1..] == []; }
    assert CountSet(c, s4) == Indicator(HasFlag(c, NegativeZ)) + CountSet(c, s5) by { assert s4[1..] == s5; }
    assert CountSet(c, s3) == Indicator(HasFlag(c, PositiveY)) + CountSet(c, s4) by { assert s3[1..] == s4; }
    assert CountSet(c, s2) == Indicator(HasFlag(c, NegativeY)) + CountSet(c, s3) by { assert s2[1..] == s3; }
    assert CountSet(c, s1) == Indicator(HasFlag(c, PositiveX)) + CountSet(c, s2) by { assert s1[1..] == s2; }
    assert CountSet(c, FaceFlags) == Indicator(HasFlag(c, NegativeX)) + CountSet(c, s1) by { assert FaceFlags[1..] == s1; }
  }

  // ---- per-mip dimensions ----

  /** C#'s `x >> count` on an int: an arithmetic shift by count mod 32,
      which rounds toward minus infinity. */
  function Sar(x: int32, count: int): (r: int32)
  {
    DivShrinks(x, Pow2(count % 32));
    x / Pow2(count % 32)
  }

  /** How a positive factor scales the sign and size of the other. */
  lemma {:induction false} MulSigns(p: int, k: int)
    ensures p >= 1 && k >= 0 ==> p * k >= k
    ensures p >= 1 && k >= 1 ==> p * k >= p
    ensures p >= 1 && k <= -1 ==> p * k <= k && p * k <= -p
  {
    if p >= 1 && k >= 0 {
      MulMono(k, 1, p);
    }
    if p >= 1 && k >= 1 {
      MulPos(k, p);
    }
    if p >= 1 && k <= -1 {
      MulMono(-k, 1, p);
      MulPos(-k, p);
    }
  }

  /** Floor division by a positive number moves toward zero, never past it. */
  lemma {:induction false} DivShrinks(x: int, p: nat)
    requires p >= 1
    ensures x >= 0 ==> 0 <= x / p <= x
    ensures x < 0 ==> x <= x / p < 0
  {
    var q := x / p;
    assert x == p * q + x % p && 0 <= x % p < p;
    MulSigns(p, q);
    MulSigns(p, x);
    MulSigns(p, x - q);
    assert p * (x - q) == p * x - p * q;
  }

  /** Width, Height and Depth: max(1, dim >> m) when the dimension's flag is
      set, otherwise 1; a mip index outside [0, NumMipmaps) throws. */
  function MipDim(h: Headers, flag: uint32, dim: int32, m: int32): (r: Result<int32>)
    ensures r.Success? <==> 0 <= m < NumMipmaps(h)
    ensures r.Failure? ==> r.error == ArgumentOutOfRange
    ensures r.Success? ==> r.value >= 1
  {
    if 0 <= m < NumMipmaps(h) then
      Success(if HasFlag(h.header.flags, flag) then Max(1, Sar(dim, m)) else 1)
    else Failure(ArgumentOutOfRange)
  }

  function Width(h: Headers, m: int32): Result<int32>
  {
    MipDim(h, WidthFlag, h.header.width, m)
  }

  function Height(h: Headers, m: int32): Result<int32>
  {
    MipDim(h, HeightFlag, h.header.height, m)
  }

  function Depth(h: Headers, m: int32): Result<int32>
  {
    MipDim(h, DepthFlag, h.header.depth, m)
  }

  /** DepthOrNumFaces: the faces of a cubemap (any mip index), otherwise
      the depth of mip m; never negative. */
  function DepthOrNumFaces(h: Headers, m: int32): (r: Result<int32>)
    ensures r.Success? ==> r.value >= 0
    ensures r.Failure? <==> !IsCubeMap(h) && !(0 <= m < NumMipmaps(h))
  {
    if IsCubeMap(h) then Success(NumFaces(h)) else Depth(h, m)
  }

  lemma {:induction false} DivPos(x: int, d: nat, e: nat)
    requires d > 0 && e > 0
    ensures x / d / e == x / (d * e)
  {
    var q, r1 := x / d, x % d;
    var q2, r2 := q / e, q % e;
    assert x == d * q + r1;
    assert q == e * q2 + r2;
    Distrib(d, e, q2, r2);
    var r := d * r2 + r1;
    assert x == (d * e) * q2 + r;
    MulMono(d, r2, e - 1);
    MulPred(e, d);
    assert d * (e - 1) == d * e - d;
    DivUnique(x, d * e, q2, r);
  }

  lemma {:induction false} Distrib(d: int, e: int, q: int, r: int)
    ensures d * (e * q + r) == (d * e) * q + d * r
  {
  }

  lemma {:induction false} DivUnique(x: int, d: nat, q: int, r: int)
    requires d > 0 && x == d * q + r && 0 <= r < d
    ensures x / d == q
  {
    var q0 := x / d;
    assert x == d * q0 + x % d;
    assert d * (q - q0) == x % d - r;
    if q - q0 >= 1 {
      MulPos(q - q0, d);
    }
    if q0 - q >= 1 {
      MulPos(q0 - q, d);
    }
  }

  /** Below mip 32 each mip's dimension is half the previous one, rounded
      down and never below 1; mip 0 is max(1, dim) with the flag set. */
  lemma {:induction false} MipDimHalves(h: Headers, flag: uint32, dim: int32, m: int32)
    requires 0 <= m && m + 1 < NumMipmaps(h) && m + 1 < 32
    ensures MipDim(h, flag, dim, m + 1).value == Max(1, MipDim(h, flag, dim, m).value / 2)
    ensures m == 0 ==> MipDim(h, flag, dim, 0).value == if HasFlag(h.header.flags, flag) then Max(1, dim) else 1
  {
    SarHalves(dim, m);
  }

  /** Shifting one place further halves, rounding down. */
  lemma {:induction false} SarHalves(x: int32, m: nat)
    requires m + 1 < 32
    ensures Sar(x, m + 1) == Sar(x, m) / 2
    ensures Sar(x, 0) == x
  {
    assert (m + 1) % 32 == m + 1 && m % 32 == m;
    assert Pow2(m + 1) == Pow2(m) * 2;
    DivPos(x, Pow2(m), 2);
  }

  // ---- pitch and sizes ----

  /** The 4-pixel blocks covering d pixels, at least one:
      `Math.Max(1, (d + 3) / 4)`. */
  function Blocks(d: int32): (r: int32)
    ensures r >= 1
    ensures 1 <= d < 0x8000_0000 - 3 ==> 4 * (r - 1) < d <= 4 * r
  {
    Max(1, TruncDiv(Wrap(d + 3), 4))
  }

  /** Bytes in a row of w pixels of bpp bits, rounded up: `(w * bpp + 7) / 8`. */
  function RowBytes(w: int32, bpp: int32): (r: int32)
    ensures 0 <= w * bpp < 0x8000_0000 - 7 ==> 8 * (r - 1) < w * bpp <= 8 * r
  {
    assert -0x8000_0000 <= TruncDiv(Wrap(Wrap(w * bpp) + 7), 8) < 0x8000_0000;
    TruncDiv(Wrap(Wrap(w * bpp) + 7), 8)
  }

  /** Pitch: the bytes in a row of blocks, or in a row of pixels. */
  function Pitch(h: Headers, f: Layout, m: int32): (r: Result<int32>)
    ensures r.Success? <==> 0 <= m < NumMipmaps(h)
  {
    if !(0 <= m < NumMipmaps(h)) then Failure(ArgumentOutOfRange)
    else
      var w := Width(h, m).value;
      match f
      case BlockCompressed(blockSize) => Success(Wrap(Blocks(w) * blockSize))
      case Linear(bpp) => Success(RowBytes(w, bpp))
  }

  /** SliceSize: the bytes in one depth slice of mip m. */
  function SliceSize(h: Headers, f: Layout, m: int32): (r: Result<int32>)
    ensures r.Success? <==> 0 <= m < NumMipmaps(h)
  {
    if !(0 <= m < NumMipmaps(h)) then Failure(ArgumentOutOfRange)
    else
      var w := Width(h, m).value;
      var ht := Height(h, m).value;
      match f
      case BlockCompressed(blockSize) => Success(Wrap(Wrap(Blocks(w) * Blocks(ht)) * blockSize))
      case Linear(bpp) => Success(Wrap(RowBytes(w, bpp) * ht))
  }

  /** The rows a slice holds: block rows for block-compressed formats,
      pixel rows otherwise. */
  function Rows(h: Headers, f: Layout, m: int32): int32
    requires 0 <= m < NumMipmaps(h)
  {
    var ht := Height(h, m).value;
    if f.BlockCompressed? then Blocks(ht) else ht
  }

  /** The order of two wrapped factors does not matter. */
  lemma {:induction false} WrapCommute(a: int, b: int, c: int)
    ensures Wrap(Wrap(a * b) * c) == Wrap(Wrap(a * c) * b)
  {
    WrapMul(a * b, c);
    WrapMul(a * c, b);
    MulSwap(a, b, c);
  }

  lemma {:induction false} MulSwap(a: int, b: int, c: int)
    ensures a * b * c == a * c * b
  {
    var bc := b * c;
    assert bc == c * b;
  }

  /** A slice is its rows at the pitch each: SliceSize = Pitch * Rows, in
      wrapped int arithmetic. */
  lemma {:induction false} SliceIsPitchTimesRows(h: Headers, f: Layout, m: int32)
    requires 0 <= m < NumMipmaps(h)
    ensures SliceSize(h, f, m).value == Wrap(Pitch(h, f, m).value * Rows(h, f, m))
  {
    if f.BlockCompressed? {
      WrapCommute(Blocks(Width(h, m).value), Blocks(Height(h, m).value), f.blockSize);
    }
  }

  function MipmapSize(h: Headers, f: Layout, m: int32): (r: Result<int32>)
    ensures r.Success? <==> 0 <= m < NumMipmaps(h)
  {
    if !(0 <= m < NumMipmaps(h)) then Failure(ArgumentOutOfRange)
    else Success(Wrap(SliceSize(h, f, m).value * Depth(h, m).value))
  }

  /** `Enumerable.Range(0, n).Sum(MipmapSize)`: the mips below n in order,
      summed in checked int arithmetic; a negative n throws. */
  function RangeSum(h: Headers, f: Layout, n: int32): (r: Result<int32>)
    ensures n < 0 ==> r == Failure(ArgumentOutOfRange)
    ensures 0 <= n <= NumMipmaps(h) && r.Failure? ==> r.error == Overflow
    ensures 0 < n && NumMipmaps(h) < n ==> r.Failure?
  {
    if n < 0 then Failure(ArgumentOutOfRange) else SumSizes(h, f, n)
  }

  function SumSizes(h: Headers, f: Layout, n: nat): (r: Result<int32>)
    requires n < 0x8000_0000
    ensures n <= NumMipmaps(h) && r.Failure? ==> r.error == Overflow
    ensures 0 < n && NumMipmaps(h) < n ==> r.Failure?
  {
    if n == 0 then Success(0)
    else
      var s :- SumSizes(h, f, n - 1);
      var x :- MipmapSize(h, f, n - 1);
      if -0x8000_0000 <= s + x < 0x8000_0000 then Success(s + x) else Failure(Overflow)
  }

  /** The summed sizes of the first n mips add up step by step: the sum up
      to m + 1 is the sum up to m plus the size of mip m, exactly. */
  lemma {:induction false} SumStep(h: Headers, f: Layout, m: int32)
    requires 0 <= m && m + 1 < 0x8000_0000
    ensures RangeSum(h, f, 0) == Success(0)
    ensures RangeSum(h, f, m + 1).Success? ==>
      && RangeSum(h, f, m).Success? && MipmapSize(h, f, m).Success?
      && RangeSum(h, f, m + 1).value == RangeSum(h, f, m).value + MipmapSize(h, f, m).value
  {
    assert RangeSum(h, f, m + 1) == SumSizes(h, f, m + 1);
    assert RangeSum(h, f, m) == SumSizes(h, f, m);
  }

  function FaceSize(h: Headers, f: Layout): (r: Result<int32>)
  {
    RangeSum(h, f, NumMipmaps(h))
  }

  function ImageSize(h: Headers, f: Layout): (r: Result<int32>)
  {
    var fs :- FaceSize(h, f);
    Success(Wrap(fs * NumFaces(h)))
  }

  // ---- offsets ----

  /** ImageDataOffset: (offset, size) of image i; an index outside
      [0, NumImages) throws. */
  function ImageDataOffset(h: Headers, f: Layout, i: int32): (r: Result<(int32, int32)>)
    ensures !(0 <= i < NumImages(h)) ==> r == Failure(ArgumentOutOfRange)
    ensures 0 <= i < NumImages(h) && ImageSize(h, f).Success? ==> r.Success?
  {
    if i < 0 || i >= NumImages(h) then Failure(ArgumentOutOfRange)
    else
      var size :- ImageSize(h, f);
      Success((Wrap(DataOffset(h) + Wrap(size * i)), size))
  }

  /** The k-th of equally sized parts after the start of `outer`:
      (outer + size * k, size), or the first failure. */
  function Strided(outer: Result<(int32, int32)>, size: Result<int32>, k: int32): (r: Result<(int32, int32)>)
  {
    var offset :- outer;
    var sz :- size;
    Success((Wrap(offset.0 + Wrap(sz * k)), sz))
  }

  /** A part that starts `skip` bytes into `outer`: (outer + skip, size). */
  function Skipped(outer: Result<(int32, int32)>, skip: Result<int32>, size: Result<int32>): (r: Result<(int32, int32)>)
  {
    var base :- outer;
    var offset :- skip;
    var sz :- size;
    Success((Wrap(base.0 + offset), sz))
  }

  /** FaceDataOffset: (offset, size) of a face of image i; the face index
      itself is not checked. */
  function FaceDataOffset(h: Headers, f: Layout, i: int32, face: int32): (r: Result<(int32, int32)>)
  {
    Strided(ImageDataOffset(h, f, i), FaceSize(h, f), face)
  }

  /** MipmapDataOffset: mip m lies after the mips before it in its face. */
  function MipmapDataOffset(h: Headers, f: Layout, i: int32, face: int32, m: int32): (r: Result<(int32, int32)>)
  {
    Skipped(FaceDataOffset(h, f, i, face), RangeSum(h, f, m), MipmapSize(h, f, m))
  }

  /** SliceDataOffset: (offset, size) of depth slice s of a mip. */
  function SliceDataOffset(h: Headers, f: Layout, i: int32, face: int32, m: int32, s: int32): (r: Result<(int32, int32)>)
  {
    Strided(MipmapDataOffset(h, f, i, face, m), SliceSize(h, f, m), s)
  }

  /** Cubemaps index faces with the slice index, other surfaces slices. */
  function SliceOrFaceDataOffset(h: Headers, f: Layout, i: int32, m: int32, s: int32): (r: Result<(int32, int32)>)
    ensures IsCubeMap(h) && r.Success? ==>
      MipmapDataOffset(h, f, i, s, m).Success? && r.value.0 == MipmapDataOffset(h, f, i, s, m).value.0
    ensures !IsCubeMap(h) && r.Success? ==> MipmapDataOffset(h, f, i, 0, m).Success?
  {
    StridedZero(MipmapDataOffset(h, f, i, s, m), SliceSize(h, f, m));
    if IsCubeMap(h) then SliceDataOffset(h, f, i, s, m, 0) else SliceDataOffset(h, f, i, 0, m, s)
  }

  /** Part 0 starts where the outer part does. */
  lemma {:induction false} StridedZero(outer: Result<(int32, int32)>, size: Result<int32>)
    ensures Strided(outer, size, 0).Success? <==> outer.Success? && size.Success?
    ensures Strided(outer, size, 0).Success? ==> Strided(outer, size, 0).value.0 == outer.value.0
  {
    if outer.Success? && size.Success? {
      var o: int := outer.value.0;
      assert size.value * 0 == 0;
      assert Wrap(0) == 0;
      assert Wrap(o + 0) == o;
    }
  }

  /** `base + size * (k + 1)` is `base + size * k` plus size, in wrapped int
      arithmetic. */
  lemma {:induction false} StrideStep(base: int, size: int, k: int)
    ensures Wrap(base + Wrap(size * (k + 1))) == Wrap(Wrap(base + Wrap(size * k)) + size)
  {
    MulSucc(size, k);
    Stride(base, size, size * k, size * (k + 1));
  }

  lemma {:induction false} MulSucc(size: int, k: int)
    ensures size * (k + 1) == size * k + size
  {
  }

  lemma {:induction false} Stride(base: int, size: int, p: int, q: int)
    requires q == p + size
    ensures Wrap(base + Wrap(q)) == Wrap(Wrap(base + Wrap(p)) + size)
  {
    WrapAdd(q, base);
    WrapAdd(base + Wrap(p), size);
    WrapAdd(p, base + size);
  }

  /** Image 0 starts right after the headers, and image i + 1 where image i
      ends. */
  lemma {:induction false} ImagesAdjacent(h: Headers, f: Layout, i: int32)
    requires 0 <= i && i + 1 < NumImages(h) && ImageSize(h, f).Success?
    ensures ImageDataOffset(h, f, 0).value.0 == DataOffset(h)
    ensures ImageDataOffset(h, f, i + 1).value
         == (Wrap(ImageDataOffset(h, f, i).value.0 + ImageSize(h, f).value), ImageSize(h, f).value)
  {
    StrideStep(DataOffset(h), ImageSize(h, f).value, i);
  }

  /** Part 0 starts where the outer part does, and part k + 1 where part k
      ends. */
  lemma {:induction false} StridedAdjacent(outer: Result<(int32, int32)>, size: Result<int32>, k: int32)
    requires -0x8000_0000 <= k + 1 < 0x8000_0000
    requires Strided(outer, size, k + 1).Success?
    ensures Strided(outer, size, k).Success? && Strided(outer, size, 0).Success?
    ensures Strided(outer, size, 0).value.0 == outer.value.0
    ensures Strided(outer, size, k + 1).value.0 == Wrap(Strided(outer, size, k).value.0 + size.value)
  {
    StridedZero(outer, size);
    StrideStep(outer.value.0, size.value, k);
  }

  /** Face 0 starts where its image does, and face k + 1 where face k ends. */
  lemma {:induction false} FacesAdjacent(h: Headers, f: Layout, i: int32, face: int32)
    requires -0x8000_0000 <= face + 1 < 0x8000_0000
    requires FaceDataOffset(h, f, i, face + 1).Success?
    ensures FaceDataOffset(h, f, i, face).Success?
    ensures FaceDataOffset(h, f, i, 0).value.0 == ImageDataOffset(h, f, i).value.0
    ensures FaceDataOffset(h, f, i, face + 1).value.0
         == Wrap(FaceDataOffset(h, f, i, face).value.0 + FaceSize(h, f).value)
  {
    StridedAdjacent(ImageDataOffset(h, f, i), FaceSize(h, f), face);
  }

  /** Parts placed after the running total of the parts before them are
      adjacent: with skip1 = skip0 + size0, part 1 starts where part 0 ends. */
  lemma {:induction false} SkippedAdjacent(outer: Result<(int32, int32)>, skip0: Result<int32>, size0: Result<int32>,
                                           skip1: Result<int32>, size1: Result<int32>)
    requires skip1.Success? ==> skip0.Success? && size0.Success? && skip1.value == skip0.value + size0.value
    requires Skipped(outer, skip1, size1).Success? && size0.Success?
    ensures Skipped(outer, skip0, size0).Success?
    ensures Skipped(outer, skip1, size1).value.0
         == Wrap(Skipped(outer, skip0, size0).value.0 + Skipped(outer, skip0, size0).value.1)
  {
    WrapAdd(outer.value.0 as int + skip0.value, size0.value);
  }

  /** Mip 0 starts where its face does, and mip m + 1 exactly where mip m
      ends: offset(m + 1) = offset(m) + MipmapSize(m). */
  lemma {:induction false} MipsAdjacent(h: Headers, f: Layout, i: int32, face: int32, m: int32)
    requires 0 <= m && m + 1 < 0x8000_0000
    requires MipmapDataOffset(h, f, i, face, m + 1).Success?
    ensures MipmapDataOffset(h, f, i, face, m).Success?
    ensures m == 0 ==> MipmapDataOffset(h, f, i, face, 0).value.0 == FaceDataOffset(h, f, i, face).value.0
    ensures MipmapDataOffset(h, f, i, face, m + 1).value.0
         == Wrap(MipmapDataOffset(h, f, i, face, m).value.0 + MipmapDataOffset(h, f, i, face, m).value.1)
  {
    SumStep(h, f, m);
    MipsAdjacentAt(FaceDataOffset(h, f, i, face), RangeSum(h, f, m), MipmapSize(h, f, m),
      RangeSum(h, f, m + 1), MipmapSize(h, f, m + 1),
      MipmapDataOffset(h, f, i, face, m), MipmapDataOffset(h, f, i, face, m + 1), m);
  }

  /** MipsAdjacent over the pieces of the two offsets. */
  lemma {:induction false} MipsAdjacentAt(outer: Result<(int32, int32)>, s0: Result<int32>, z0: Result<int32>,
                                          s1: Result<int32>, z1: Result<int32>,
                                          r0: Result<(int32, int32)>, r1: Result<(int32, int32)>, m: int)
    requires r0 == Skipped(outer, s0, z0) && r1 == Skipped(outer, s1, z1) && r1.Success?
    requires s1.Success? ==> s0.Success? && z0.Success? && s1.value == s0.value + z0.value
    requires m == 0 ==> s0 == Success(0)
    ensures r0.Success? && (m == 0 ==> r0.value.0 == outer.value.0)
    ensures r1.value.0 == Wrap(r0.value.0 + r0.value.1)
  {
    SkippedAdjacent(outer, s0, z0, s1, z1);
    if m == 0 {
      SkippedZero(outer, s0, z0);
    }
  }

  /** Skipping nothing starts at the outer offset. */
  lemma {:induction false} SkippedZero(outer: Result<(int32, int32)>, skip: Result<int32>, size: Result<int32>)
    requires skip == Success(0) && Skipped(outer, skip, size).Success?
    ensures Skipped(outer, skip, size).value.0 == outer.value.0
  {
  }

  /** Slice 0 starts where its mip does, and slice s + 1 where slice s ends. */
  lemma {:induction false} SlicesAdjacent(h: Headers, f: Layout, i: int32, face: int32, m: int32, s: int32)
    requires -0x8000_0000 <= s + 1 < 0x8000_0000
    requires SliceDataOffset(h, f, i, face, m, s + 1).Success?
    ensures SliceDataOffset(h, f, i, face, m, s).Success?
    ensures SliceDataOffset(h, f, i, face, m, 0).value.0 == MipmapDataOffset(h, f, i, face, m).value.0
    ensures SliceDataOffset(h, f, i, face, m, s + 1).value.0
         == Wrap(SliceDataOffset(h, f, i, face, m, s).value.0 + SliceSize(h, f, m).value)
  {
    var outer, size := MipmapDataOffset(h, f, i, face, m), SliceSize(h, f, m);
    assert SliceDataOffset(h, f, i, face, m, s + 1) == Strided(outer, size, s + 1);
    StridedAdjacent(outer, size, s);
  }

  // ---- the pixel format of an uncompressed header ----

  /** The pixel formats the header can describe. FourCC formats go through
      the format resolver, which is not part of this model. */
  datatype PixelFormat =
    | Rgba(alpha: AlphaType, r: ChannelDefinition, g: ChannelDefinition, b: ChannelDefinition,
           a: ChannelDefinition, x1: ChannelDefinition)
    | Yuv(yuv: YuvPixelFormat)
    | Lumi(alpha: AlphaType, l: ChannelDefinition, a: ChannelDefinition, x: ChannelDefinition)
    | Unknown
    | Resolved(fourCc: uint32)

  /** The bits the padding channel may use: the low RgbBitCount bits, all
      32 of them from 32 on. */
  function RgbBitMask(count: int32): (r: uint32)
  {
    if count >= 32 then AllOnes else LowMask(count)
  }

  /** The padding mask: `low & ~colour & (alphaCut ? ~A : ~0)`. */
  function Padding(low: uint32, colour: uint32, alphaCut: Option<uint32>): (r: uint32)
  {
    And(And(low, Not(colour)), if alphaCut.Some? then Not(alphaCut.value) else Not(0))
  }

  /** The alpha channel: read from the A mask only with AlphaPixels. */
  function AlphaChannel(pf: PixelFormatHeader): ChannelDefinition
  {
    if HasFlag(pf.flags, AlphaPixelsFlag) then ChannelOf(Unorm, pf.aBitMask) else Empty
  }

  function AlphaTypeOf(pf: PixelFormatHeader): AlphaType
  {
    if IsEmpty(AlphaChannel(pf)) then NoAlpha else Straight
  }

  /** The alpha bits the padding leaves out: the A mask with AlphaPixels. */
  function AlphaCut(pf: PixelFormatHeader): Option<uint32>
  {
    if HasFlag(pf.flags, AlphaPixelsFlag) then Some(pf.aBitMask) else None
  }

  /** The padding of an RGB or YUV format: the low bits outside R, G and B
      (and A). */
  function ColourPadding(pf: PixelFormatHeader, low: uint32): uint32
  {
    Padding(low, OrWord(OrWord(pf.rBitMask, pf.gBitMask), pf.bBitMask), AlphaCut(pf))
  }

  function RgbFormat(pf: PixelFormatHeader, low: uint32): PixelFormat
  {
    Rgba(AlphaTypeOf(pf), ChannelOf(Unorm, pf.rBitMask), ChannelOf(Unorm, pf.gBitMask),
         ChannelOf(Unorm, pf.bBitMask), AlphaChannel(pf), ChannelOf(Typeless, ColourPadding(pf, low)))
  }

  function YuvFormat(pf: PixelFormatHeader, low: uint32): PixelFormat
  {
    Yuv(NewYuv(AlphaTypeOf(pf), Some(ChannelOf(Unorm, pf.rBitMask)), Some(ChannelOf(Unorm, pf.gBitMask)),
               Some(ChannelOf(Unorm, pf.bBitMask)), Some(AlphaChannel(pf)),
               Some(ChannelOf(Typeless, ColourPadding(pf, low)))))
  }

  function LuminanceFormat(pf: PixelFormatHeader, low: uint32): PixelFormat
  {
    Lumi(AlphaTypeOf(pf), ChannelOf(Unorm, pf.rBitMask), AlphaChannel(pf),
         ChannelOf(Typeless, Padding(low, pf.rBitMask, AlphaCut(pf))))
  }

  /** An alpha-only format; its colour channels are left Empty. */
  function AlphaOnlyFormat(pf: PixelFormatHeader, low: uint32): PixelFormat
  {
    Rgba(Straight, Empty, Empty, Empty, AlphaChannel(pf), ChannelOf(Typeless, And(low, Not(pf.aBitMask))))
  }

  /** The uncompressed branch of PixelFormat with `low` as the padding
      bits: the first of the Rgb, Yuv, Luminance and Alpha flags decides the
      format, and with none of them the format is unknown. */
  function Uncompressed(pf: PixelFormatHeader, low: uint32): (r: PixelFormat)
    ensures r.Rgba? <==> (HasFlag(pf.flags, RgbFlag)
      || (!HasFlag(pf.flags, YuvFlag) && !HasFlag(pf.flags, LuminanceFlag) && HasFlag(pf.flags, AlphaFlag)))
    ensures r.Yuv? <==> !HasFlag(pf.flags, RgbFlag) && HasFlag(pf.flags, YuvFlag)
    ensures r.Lumi? <==> !HasFlag(pf.flags, RgbFlag) && !HasFlag(pf.flags, YuvFlag) && HasFlag(pf.flags, LuminanceFlag)
    ensures r.Unknown? <==> (!HasFlag(pf.flags, RgbFlag) && !HasFlag(pf.flags, YuvFlag)
      && !HasFlag(pf.flags, LuminanceFlag) && !HasFlag(pf.flags, AlphaFlag))
    ensures !r.Resolved?
  {
    if HasFlag(pf.flags, RgbFlag) then RgbFormat(pf, low)
    else if HasFlag(pf.flags, YuvFlag) then YuvFormat(pf, low)
    else if HasFlag(pf.flags, LuminanceFlag) then LuminanceFormat(pf, low)
    else if HasFlag(pf.flags, AlphaFlag) then AlphaOnlyFormat(pf, low)
    else Unknown
  }
  /** PixelFormat: the uncompressed formats, or the resolver's answer for
      a FourCC. */
  function PixelFormatOf(h: Headers): (r: PixelFormat)
    ensures HasFlag(h.header.pixelFormat.flags, FourCcFlag) <==> r.Resolved?
  {
    var pf := h.header.pixelFormat;
    if !HasFlag(pf.flags, FourCcFlag) then Uncompressed(pf, RgbBitMask(pf.rgbBitCount))
    else Resolved(pf.fourCc)
  }

  /** RgbBitMask holds exactly the bits below RgbBitCount (all 32 from 32
      on). */
  lemma {:induction false} RgbBitMaskBits(count: int32, i: nat)
    requires 0 <= count && i < 32
    ensures Bit(RgbBitMask(count), i) == 1 <==> i < count
  {
    if count >= 32 {
      Pow2Word();
      LowOnes(32, i);
    } else {
      LowMaskBit(count, i);
    }
  }

  /** A padding bit is set exactly when it is one of the low bits, in no
      colour mask, and outside the alpha mask when alpha is cut out. */
  lemma {:induction false} PaddingBits(low: uint32, colour: uint32, alphaCut: Option<uint32>, i: nat)
    requires i < 32
    ensures Bit(Padding(low, colour, alphaCut), i) == 1
      <==> (Bit(low, i) == 1 && Bit(colour, i) == 0 && (alphaCut.Some? ==> Bit(alphaCut.value, i) == 0))
  {
    var cut := if alphaCut.Some? then Not(alphaCut.value) else Not(0);
    AndBit(And(low, Not(colour)), cut, i);
    AndBit(low, Not(colour), i);
    NotBit(colour, i);
    if alphaCut.Some? {
      NotBit(alphaCut.value, i);
    } else {
      NotBit(0, i);
      BitZero(i);
    }
  }

  /** For RGB and YUV headers the padding channel covers exactly the bits
      below RgbBitCount that are in none of the R, G, B masks, nor in the A
      mask when AlphaPixels is set. */
  lemma {:induction false} ColourPaddingBits(pf: PixelFormatHeader, i: nat)
    requires 0 <= pf.rgbBitCount && i < 32
    ensures Bit(ColourPadding(pf, RgbBitMask(pf.rgbBitCount)), i) == 1
      <==> ( && i < pf.rgbBitCount
           && Bit(pf.rBitMask, i) == 0 && Bit(pf.gBitMask, i) == 0 && Bit(pf.bBitMask, i) == 0
           && (HasFlag(pf.flags, AlphaPixelsFlag) ==> Bit(pf.aBitMask, i) == 0))
  {
    PaddingBits(RgbBitMask(pf.rgbBitCount), OrWord(OrWord(pf.rBitMask, pf.gBitMask), pf.bBitMask), AlphaCut(pf), i);
    RgbBitMaskBits(pf.rgbBitCount, i);
    OrBit(OrWord(pf.rBitMask, pf.gBitMask), pf.bBitMask, i);
    OrBit(pf.rBitMask, pf.gBitMask, i);
  }

  // ---- the padding mask as written ----

  /** PixelFormat as the source writes it: the padding bits are
      `(1u << RgbBitCount) - 1u`, whose shift count C# takes modulo 32. */
  function PixelFormatAsWritten(h: Headers): (r: PixelFormat)
    ensures HasFlag(h.header.pixelFormat.flags, FourCcFlag) <==> r.Resolved?
  {
    var pf := h.header.pixelFormat;
    if !HasFlag(pf.flags, FourCcFlag) then Uncompressed(pf, LowMask(pf.rgbBitCount))
    else Resolved(pf.fourCc)
  }

  /** As written, a 32-bit format has no padding bits at all: the shift
      by 32 is a shift by 0, so the low mask is 0. */
  lemma {:induction false} NoPaddingAt32AsWritten(pf: PixelFormatHeader)
    requires pf.rgbBitCount == 32
    ensures LowMask(pf.rgbBitCount) == 0
    ensures ColourPadding(pf, LowMask(pf.rgbBitCount)) == 0
  {
  }

  /** X8R8G8B8: 32 bits, red, green and blue in the low 24, no alpha. */
  const X8R8G8B8: PixelFormatHeader := PixelFormatHeader(RgbFlag, 0, 32, 0xFF_0000, 0xFF00, 0xFF, 0)

  /** For X8R8G8B8 the source's format has no padding channel, where the
      top byte is evidently meant to be one; the corrected mask gives it. */
  lemma {:induction false} X8R8G8B8Padding(h: Headers)
    requires h.header.pixelFormat == X8R8G8B8
    ensures PixelFormatAsWritten(h).Rgba? && PixelFormatAsWritten(h).x1 == Empty
    ensures PixelFormatOf(h).Rgba? && PixelFormatOf(h).x1 == ChannelDefinition(Typeless, 24, 8, 0xFF)
  {
    var pf := X8R8G8B8;
    assert HasFlag(pf.flags, RgbFlag) && !HasFlag(pf.flags, FourCcFlag);
    NoPaddingAt32AsWritten(pf);
    X8R8G8B8Mask();
    Pow2Bytes();
    ContiguousRoundTrip(Typeless, 24, 8, 0xFF00_0000);
  }

  /** The corrected padding mask of X8R8G8B8 is its top byte. */
  lemma {:induction false} X8R8G8B8Mask()
    ensures ColourPadding(X8R8G8B8, RgbBitMask(32)) == 0xFF00_0000
  {
    var pf := X8R8G8B8;
    Pow2Bytes();
    assert !HasFlag(pf.flags, AlphaPixelsFlag);
    assert pf.rBitMask == (Pow2(8) - 1) * Pow2(16);
    assert pf.gBitMask == (Pow2(8) - 1) * Pow2(8);
    assert pf.bBitMask == (Pow2(8) - 1) * Pow2(0);
    TopPadding(pf, 8);
    assert (Pow2(8) - 1) * Pow2(24) == 0xFF00_0000;
  }

  /** Red, green and blue masks of w bits each, stacked from bit 0, and no
      alpha in a 4w-bit pixel leave the top w bits as padding. */
  lemma {:induction false} TopPadding(pf: PixelFormatHeader, w: nat)
    requires pf.rgbBitCount == 32 && 4 * w == 32 && !HasFlag(pf.flags, AlphaPixelsFlag)
    requires pf.rBitMask == (Pow2(w) - 1) * Pow2(2 * w) && pf.gBitMask == (Pow2(w) - 1) * Pow2(w)
    requires pf.bBitMask == (Pow2(w) - 1) * Pow2(0)
    ensures ColourPadding(pf, RgbBitMask(32)) == (Pow2(w) - 1) * Pow2(3 * w)
  {
    var top := (Pow2(w) - 1) * Pow2(3 * w);
    forall i | 0 <= i < 32
      ensures Bit(ColourPadding(pf, RgbBitMask(32)), i) == Bit(top, i)
    {
      TopPaddingBit(pf, w, i, Pow2(w) - 1, top);
    }
    TopBelow(w);
    Pow2Word();
    SameBits(ColourPadding(pf, RgbBitMask(32)), top, 32);
  }

  lemma {:induction false} TopPaddingBit(pf: PixelFormatHeader, w: nat, i: nat, ones: nat, top: nat)
    requires pf.rgbBitCount == 32 && 4 * w == 32 && !HasFlag(pf.flags, AlphaPixelsFlag)
    requires ones == Pow2(w) - 1 && top == ones * Pow2(3 * w)
    requires pf.rBitMask == ones * Pow2(2 * w) && pf.gBitMask == ones * Pow2(w) && pf.bBitMask == ones * Pow2(0)
    requires i < 32
    ensures Bit(ColourPadding(pf, RgbBitMask(32)), i) == Bit(top, i)
  {
    ColourPaddingBits(pf, i);
    ContiguousBit(w, 2 * w, i);
    ContiguousBit(w, w, i);
    ContiguousBit(w, 0, i);
    ContiguousBit(w, 3 * w, i);
  }

  /** The top w bits of a 4w-bit word fit in 32 bits. */
  lemma {:induction false} TopBelow(w: nat)
    requires 4 * w == 32
    ensures (Pow2(w) - 1) * Pow2(3 * w) < Pow2(32)
  {
    Pow2Add(w, 3 * w);
    MulPred(Pow2(w), Pow2(3 * w));
  }

  lemma {:induction false} MulPred(a: int, b: int)
    ensures (a - 1) * b == a * b - b
  {
  }

  // ---- the file ----

  /** A DDS file: its headers and the byte buffer they were read from. */
  class DdsFile {
    const headers: Headers
    var data: seq<byte>

    /** The constructor from parsed headers: the DXT10 header is in use
        exactly when one is given; otherwise a default one stands in. */
    constructor(header: Header, dxt10: Option<Dxt10Header>, data: seq<byte>)
      ensures headers.header == header
      ensures headers.useDxt10 <==> dxt10.Some?
      ensures headers.dxt10 == if dxt10.Some? then dxt10.value else Dxt10Header(0)
      ensures this.data == data
    {
      headers := Headers(header, dxt10.Some?, if dxt10.Some? then dxt10.value else Dxt10Header(0));
      this.data := data;
    }

    /** SetBufferUnchecked: replaces the buffer, headers untouched. */
    method SetBufferUnchecked(buffer: seq<byte>)
      modifies this
      ensures data == buffer
    {
      data := buffer;
    }

    /** Body: the bytes after the headers; a buffer shorter than the headers
        throws. */
    function Body(): (r: Result<seq<byte>>)
      reads this
      ensures r.Success? <==> DataOffset(headers) <= |data|
      ensures r.Success? ==> data == data[..DataOffset(headers)] + r.value
    {
      var offset := DataOffset(headers);
      if offset <= |data| then Success(data[offset..]) else Failure(ArgumentOutOfRange)
    }
  }
}
