/** Fixed-width integers and their byte images, and the byte cursors the
    codecs read from and write to (NativeReader / NativeWriter, whose own
    source is not part of this model). Every multi-byte read and write takes
    the byte order explicitly. */
module Binary {
  import opened Outcomes

  type byte = b: int | 0 <= b < 0x100
  type uint16 = x: int | 0 <= x < 0x1_0000
  type uint32 = x: int | 0 <= x < 0x1_0000_0000
  type int32 = x: int | -0x8000_0000 <= x < 0x8000_0000

  /** Two's-complement reading of a 32-bit word. */
  function Signed(u: uint32): (x: int32)
    ensures x % 0x1_0000_0000 == u
  {
    if u < 0x8000_0000 then u else u - 0x1_0000_0000
  }

  /** The 32-bit word an int is stored as (C#'s unchecked conversion). */
  function Unsigned(x: int): (u: uint32)
    ensures -0x8000_0000 <= x < 0x8000_0000 ==> Signed(u) == x
  {
    x % 0x1_0000_0000
  }

  /** C#'s unchecked int arithmetic: the exact result wrapped into 32 bits. */
  function Wrap(x: int): int32
  {
    Signed(Unsigned(x))
  }

  /** A non-negative value comes through wrapping unchanged exactly when
      it fits in an int32, and never comes out larger. */
  lemma {:induction false} WrapKeeps(x: int)
    requires 0 <= x
    ensures Wrap(x) == x <==> x < 0x8000_0000
    ensures Wrap(x) <= x
  {
  }

  /** Adding a multiple of 2^32 does not change the wrapped value. */
  lemma {:induction false} WrapShift(x: int, k: int)
    ensures Wrap(x + k * 0x1_0000_0000) == Wrap(x)
  {
    assert Unsigned(x + k * 0x1_0000_0000) == Unsigned(x);
  }

  /** Wrapping an intermediate sum changes nothing in C#'s int arithmetic. */
  lemma {:induction false} WrapAdd(x: int, y: int)
    ensures Wrap(Wrap(x) + y) == Wrap(x + y)
  {
    var q := x / 0x1_0000_0000;
    if Unsigned(x) < 0x8000_0000 {
      assert Wrap(x) + y == x + y + (-q) * 0x1_0000_0000;
      WrapShift(x + y, -q);
    } else {
      assert Wrap(x) + y == x + y + (-q - 1) * 0x1_0000_0000;
      WrapShift(x + y, -q - 1);
    }
  }

  /** Wrapping an intermediate product changes nothing either. */
  lemma {:induction false} WrapMul(x: int, y: int)
    ensures Wrap(Wrap(x) * y) == Wrap(x * y)
  {
    var q := x / 0x1_0000_0000;
    var k := if Unsigned(x) < 0x8000_0000 then -q else -q - 1;
    assert Wrap(x) == x + k * 0x1_0000_0000;
    assert Wrap(x) * y == x * y + (k * y) * 0x1_0000_0000;
    WrapShift(x * y, k * y);
  }

  function Max(a: int32, b: int32): int32
  {
    if a < b then b else a
  }

  /** C#'s integer division, which truncates toward zero. */
  function TruncDiv(a: int, d: nat): (q: int)
    requires d > 0
    ensures a >= 0 ==> q >= 0 && q * d <= a < (q + 1) * d
    ensures a < 0 ==> q <= 0 && (q - 1) * d < a <= q * d
  {
    if a >= 0 then
      DivBounds(a, d);
      a / d
    else
      DivBounds(-a, d);
      -((-a) / d)
  }

  /** Euclidean division of a natural number, stated with both signs of the
      quotient so that truncation toward zero follows without products. */
  lemma {:induction false} DivBounds(n: nat, d: nat)
    requires d > 0
    ensures n / d >= 0
    ensures (n / d) * d <= n < (n / d + 1) * d
    ensures (-(n / d) - 1) * d < -(n as int) <= (-(n / d)) * d
  {
    var q, r := n / d, n % d;
    assert n == q * d + r && 0 <= r < d;
    MulNeg(q, d);
    assert (q + 1) * d == q * d + d;
    assert (-q - 1) * d == -(q * d) - d;
    assert (-q) * d == -(q * d);
  }

  lemma {:induction false} MulNeg(k: int, d: int)
    requires d > 0
    ensures k < 0 ==> k * d <= -d
  {
    if k < 0 {
      assert k * d == -((-k) * d);
      assert (-k) * d >= d;
    }
  }

  function Reverse4(b: seq<byte>): (r: seq<byte>)
    requires |b| == 4
    ensures |r| == 4 && forall i :: 0 <= i < 4 ==> r[i] == b[3 - i]
  {
    [b[3], b[2], b[1], b[0]]
  }

  /** Byte image of a 32-bit word in the given byte order. */
  function U32Bytes(x: uint32, bigEndian: bool): (r: seq<byte>)
    ensures |r| == 4
  {
    var le := [x % 0x100, x / 0x100 % 0x100, x / 0x1_0000 % 0x100, x / 0x100_0000];
    if bigEndian then Reverse4(le) else le
  }

  /** The 32-bit word four bytes encode in the given byte order. */
  function U32Of(b: seq<byte>, bigEndian: bool): uint32
    requires |b| == 4
  {
    var le := if bigEndian then Reverse4(b) else b;
    var b0: int, b1: int, b2: int, b3: int := le[0], le[1], le[2], le[3];
    b0 + 0x100 * (b1 + 0x100 * (b2 + 0x100 * b3))
  }

  lemma {:induction false} U32RoundTrip(x: uint32, bigEndian: bool)
    ensures U32Of(U32Bytes(x, bigEndian), bigEndian) == x
  {
    var b0, b1, b2, b3 := x % 0x100, x / 0x100 % 0x100, x / 0x1_0000 % 0x100, x / 0x100_0000;
    assert x / 0x100 == b1 + 0x100 * (x / 0x1_0000);
    assert x / 0x1_0000 == b2 + 0x100 * b3;
  }

  /** The four base-256 digits of a number below 2^32 written in Horner form. */
  lemma {:induction false} Digits(b0: byte, b1: byte, b2: byte, b3: byte)
    ensures var x := b0 + 0x100 * (b1 + 0x100 * (b2 + 0x100 * b3));
      x % 0x100 == b0 && x / 0x100 % 0x100 == b1 && x / 0x1_0000 % 0x100 == b2 && x / 0x100_0000 == b3
  {
    var x := b0 + 0x100 * (b1 + 0x100 * (b2 + 0x100 * b3));
    assert x / 0x100 == b1 + 0x100 * (b2 + 0x100 * b3);
    assert x / 0x1_0000 == (x / 0x100) / 0x100;
    assert x / 0x1_0000 == b2 + 0x100 * b3;
    assert x / 0x100_0000 == (x / 0x1_0000) / 0x100;
  }

  lemma {:induction false} U32BytesOf(b: seq<byte>, bigEndian: bool)
    requires |b| == 4
    ensures U32Bytes(U32Of(b, bigEndian), bigEndian) == b
  {
    var le := if bigEndian then Reverse4(b) else b;
    Digits(le[0], le[1], le[2], le[3]);
  }

  function I32Bytes(x: int, bigEndian: bool): (r: seq<byte>)
    ensures |r| == 4
  {
    U32Bytes(Unsigned(x), bigEndian)
  }

  function I32Of(b: seq<byte>, bigEndian: bool): int32
    requires |b| == 4
  {
    Signed(U32Of(b, bigEndian))
  }

  lemma {:induction false} I32RoundTrip(x: int32, bigEndian: bool)
    ensures I32Of(I32Bytes(x, bigEndian), bigEndian) == x
  {
    U32RoundTrip(Unsigned(x), bigEndian);
  }

  lemma {:induction false} I32BytesOf(b: seq<byte>, bigEndian: bool)
    requires |b| == 4
    ensures I32Bytes(I32Of(b, bigEndian), bigEndian) == b
  {
    U32BytesOf(b, bigEndian);
  }

  function U16Bytes(x: uint16, bigEndian: bool): (r: seq<byte>)
    ensures |r| == 2
  {
    if bigEndian then [x / 0x100, x % 0x100] else [x % 0x100, x / 0x100]
  }

  function U16Of(b: seq<byte>, bigEndian: bool): uint16
    requires |b| == 2
  {
    var lo: int, hi: int := if bigEndian then b[1] else b[0], if bigEndian then b[0] else b[1];
    lo + 0x100 * hi
  }

  lemma {:induction false} U16RoundTrip(x: uint16, bigEndian: bool)
    ensures U16Of(U16Bytes(x, bigEndian), bigEndian) == x
  {
    assert x == x % 0x100 + 0x100 * (x / 0x100);
  }

  function Zeros(n: nat): (r: seq<byte>)
    ensures |r| == n && forall i :: 0 <= i < n ==> r[i] == 0
  {
    seq(n, _ => 0)
  }

  predicate AllZero(b: seq<byte>)
  {
    forall i :: 0 <= i < |b| ==> b[i] == 0
  }

  /** n % 4, by repeated subtraction: recursion keeps the modulus out of
      the proofs that only move positions around. */
  function Mod4(n: nat): (r: nat)
    ensures r < 4
  {
    if n < 4 then n else Mod4(n - 4)
  }

  lemma {:induction false} Mod4Is(n: nat)
    ensures Mod4(n) == n % 4
  {
    if n >= 4 {
      Mod4Is(n - 4);
    }
  }

  /** Zero bytes that bring `pos` up to the next multiple of 4 (WritePadding(4)). */
  function PadTo4(pos: nat): (r: nat)
    ensures r < 4
  {
    if Mod4(pos) == 0 then 0 else 4 - Mod4(pos)
  }

  /** The least multiple of 4 not below `n`. */
  function RoundUp4(n: nat): nat
  {
    n + PadTo4(n)
  }

  lemma {:induction false} RoundUp4Facts(n: nat)
    ensures RoundUp4(n) % 4 == 0 && n <= RoundUp4(n) < n + 4
    ensures n % 4 == 0 ==> RoundUp4(n) == n
    ensures RoundUp4(n) == (n + 3) / 4 * 4
  {
    Mod4Is(n);
  }

  /** RoundUp4's bounds alone. */
  lemma {:induction false} RoundUp4Bounds(n: nat)
    ensures RoundUp4(n) % 4 == 0 && n <= RoundUp4(n) < n + 4
  {
    RoundUp4Facts(n);
  }

  lemma {:induction false} RoundUp4Aligned(n: nat)
    requires n % 4 == 0
    ensures RoundUp4(n) == n
  {
    RoundUp4Facts(n);
  }

  lemma {:induction false} Mod4Add(a: int, b: int)
    requires a % 4 == 0 && b % 4 == 0
    ensures (a + b) % 4 == 0
  {
    assert a + b == 4 * (a / 4 + b / 4);
  }

  /** Padding only depends on the position modulo 4. */
  lemma {:induction false} RoundUp4Shift(a: nat, n: nat)
    requires a % 4 == 0
    ensures RoundUp4(a + n) == a + RoundUp4(n)
  {
    Mod4Is(a + n);
    Mod4Is(n);
    assert (a + n) % 4 == n % 4;
  }

  /** A slice of the middle part of a concatenation. */
  /** A sequence that starts with p is p followed by the rest. */
  lemma {:induction false} PrefixSplit<T>(data: seq<T>, p: seq<T>)
    requires |p| <= |data| && data[..|p|] == p
    ensures data == p + data[|p|..]
  {
    assert data == data[..|p|] + data[|p|..];
  }

  /** The prefix of a sequence as long as itself is the sequence. */
  lemma {:induction false} TakeAll<T>(a: seq<T>)
    ensures a[..|a|] == a
  {
    assert a[..|a|] == a;
  }

  lemma {:induction false} SliceMiddle<T>(a: seq<T>, b: seq<T>, c: seq<T>, lo: int, hi: int)
    requires 0 <= lo <= hi <= |b|
    ensures (a + b + c)[|a| + lo..|a| + hi] == b[lo..hi]
  {
  }

  lemma {:induction false} SliceOfPrefix<T>(x: seq<T>, y: seq<T>, lo: int, hi: int)
    requires x <= y && 0 <= lo <= hi <= |x|
    ensures y[lo..hi] == x[lo..hi]
  {
  }

  /** Where `b` sits in anything that starts with a + b. */
  lemma {:induction false} SliceAfter<T>(whole: seq<T>, a: seq<T>, b: seq<T>, lo: int)
    requires a + b <= whole && lo == |a|
    ensures lo + |b| <= |whole| && whole[lo..lo + |b|] == b
  {
    assert whole[..|a + b|] == a + b;
  }

  /** `x` occurs in `whole` at position `lo`, stated element by element so
      that an occurrence of a large sequence costs nothing until one of its
      elements is asked for. */
  ghost predicate At<T>(whole: seq<T>, lo: int, x: seq<T>)
  {
    0 <= lo && lo + |x| <= |whole| && forall j :: 0 <= j < |x| ==> whole[lo + j] == x[j]
  }

  /** An occurrence is the slice at its position. */
  lemma {:induction false} AtSlice<T>(whole: seq<T>, lo: int, x: seq<T>)
    requires At(whole, lo, x)
    ensures 0 <= lo && lo + |x| <= |whole| && whole[lo..lo + |x|] == x
  {
    forall j | 0 <= j < |x|
      ensures whole[lo..lo + |x|][j] == x[j]
    {
      assert whole[lo..lo + |x|][j] == whole[lo + j];
    }
  }

  /** The second part of a prefix occurs right after the first. */
  lemma {:induction false} AtPrefix<T>(whole: seq<T>, a: seq<T>, b: seq<T>)
    requires a + b <= whole
    ensures At(whole, |a|, b)
  {
    forall j | 0 <= j < |b|
      ensures whole[|a| + j] == b[j]
    {
      assert whole[|a| + j] == (a + b)[|a| + j];
    }
  }

  /** `x` sits at |a| + k in a + b + c when it sits at k in b. */
  lemma {:induction false} AtBehind<T>(a: seq<T>, b: seq<T>, c: seq<T>, x: seq<T>, k: int)
    requires At(b, k, x)
    ensures At(a + b + c, |a| + k, x)
  {
    forall j | 0 <= j < |x|
      ensures (a + b + c)[|a| + k + j] == x[j]
    {
      assert (a + b + c)[|a| + k + j] == b[k + j];
    }
  }

  /** A sequence occurs at the start of itself. */
  lemma {:induction false} AtSelf<T>(x: seq<T>)
    ensures At(x, 0, x)
  {
    forall j | 0 <= j < |x|
      ensures x[0 + j] == x[j]
    {
    }
  }

  /** An occurrence in b moves |a| further into a + b. */
  lemma {:induction false} AtFront<T>(a: seq<T>, b: seq<T>, x: seq<T>, k: int)
    requires At(b, k, x)
    ensures At(a + b, |a| + k, x)
  {
    forall j | 0 <= j < |x|
      ensures (a + b)[|a| + k + j] == x[j]
    {
      assert (a + b)[|a| + k + j] == b[k + j];
    }
  }

  /** An occurrence in a stays where it is in a + c. */
  lemma {:induction false} AtBack<T>(a: seq<T>, c: seq<T>, x: seq<T>, k: int)
    requires At(a, k, x)
    ensures At(a + c, k, x)
  {
    forall j | 0 <= j < |x|
      ensures (a + c)[k + j] == x[j]
    {
      assert (a + c)[k + j] == a[k + j];
    }
  }

  /** A slice occurs at its position. */
  lemma {:induction false} AtOfSlice<T>(whole: seq<T>, lo: int, x: seq<T>)
    requires 0 <= lo && lo + |x| <= |whole| && whole[lo..lo + |x|] == x
    ensures At(whole, lo, x)
  {
    forall j | 0 <= j < |x|
      ensures whole[lo + j] == x[j]
    {
      assert whole[lo..lo + |x|][j] == whole[lo + j];
    }
  }

  /** An occurrence at a position is one at any equal position. */
  lemma {:induction false} AtMoved<T>(whole: seq<T>, lo: int, lo2: int, x: seq<T>)
    requires At(whole, lo, x) && lo == lo2
    ensures At(whole, lo2, x)
  {
  }

  /** A piece of an occurrence occurs at the matching place in the whole. */
  lemma {:induction false} AtSub<T>(whole: seq<T>, lo: int, x: seq<T>, a: int, b: int)
    requires At(whole, lo, x) && 0 <= a <= b <= |x|
    ensures At(whole, lo + a, x[a..b])
  {
    forall j | 0 <= j < b - a
      ensures whole[lo + a + j] == x[a..b][j]
    {
      assert x[a..b][j] == x[a + j];
    }
  }

  /** An occurrence of a + b is one of a followed by one of b. */
  lemma {:induction false} AtSplit<T>(whole: seq<T>, lo: int, a: seq<T>, b: seq<T>)
    requires At(whole, lo, a + b)
    ensures At(whole, lo, a) && At(whole, lo + |a|, b)
  {
    forall j | 0 <= j < |a|
      ensures whole[lo + j] == a[j]
    {
      assert (a + b)[j] == a[j];
    }
    forall j | 0 <= j < |b|
      ensures whole[lo + |a| + j] == b[j]
    {
      assert (a + b)[|a| + j] == b[j];
    }
  }

  /** An occurrence of a + b + c is one of each in turn. */
  lemma {:induction false} AtSplit3<T>(whole: seq<T>, lo: int, a: seq<T>, b: seq<T>, c: seq<T>)
    requires At(whole, lo, a + b + c)
    ensures At(whole, lo, a) && At(whole, lo + |a|, b) && At(whole, lo + |a| + |b|, c)
  {
    AtSplit(whole, lo, a + b, c);
    AtSplit(whole, lo, a, b);
  }

  /** An occurrence of a + b + c + d is one of each in turn. */
  lemma {:induction false} AtSplit4<T>(whole: seq<T>, lo: int, a: seq<T>, b: seq<T>, c: seq<T>, d: seq<T>)
    requires At(whole, lo, a + b + c + d)
    ensures At(whole, lo, a) && At(whole, lo + |a|, b) && At(whole, lo + |a| + |b|, c)
    ensures At(whole, lo + |a| + |b| + |c|, d)
  {
    AtSplit(whole, lo, a + b + c, d);
    AtSplit3(whole, lo, a, b, c);
  }

  /** An occurrence of a + b + c + d + e is one of each in turn. */
  lemma {:induction false} AtSplit5<T>(whole: seq<T>, lo: int, a: seq<T>, b: seq<T>, c: seq<T>, d: seq<T>, e: seq<T>)
    requires At(whole, lo, a + b + c + d + e)
    ensures At(whole, lo, a) && At(whole, lo + |a|, b) && At(whole, lo + |a| + |b|, c)
    ensures At(whole, lo + |a| + |b| + |c|, d) && At(whole, lo + |a| + |b| + |c| + |d|, e)
  {
    AtSplit(whole, lo, a + b + c + d, e);
    AtSplit4(whole, lo, a, b, c, d);
  }

  /** Appending pieces one at a time appends their concatenation. */
  lemma Appended<T>(s: seq<T>, a: seq<T>, b: seq<T>)
    ensures s + a + b == s + (a + b)
  {
  }

  lemma Appended3<T>(s: seq<T>, a: seq<T>, b: seq<T>, c: seq<T>)
    ensures s + a + b + c == s + (a + b + c)
  {
  }

  lemma Appended4<T>(s: seq<T>, a: seq<T>, b: seq<T>, c: seq<T>, d: seq<T>)
    ensures s + a + b + c + d == s + (a + b + c + d)
  {
  }

  /** A read-only byte stream with a position and a byte order: the model of
      NativeReader over a MemoryStream. The position may be set past the end
      (reads then fail), as Stream.Position allows. */
  class NativeReader {
    const data: seq<byte>
    const canSeek: bool
    var pos: nat
    var bigEndian: bool

    constructor (data: seq<byte>, canSeek: bool)
      ensures this.data == data && this.canSeek == canSeek
      ensures pos == 0 && !bigEndian
    {
      this.data := data;
      this.canSeek := canSeek;
      pos := 0;
      bigEndian := false;
    }

    /** Whether `n` more bytes can be read. */
    predicate Has(n: nat)
      reads this
    {
      pos + n <= |data|
    }

    method ReadBytes(n: nat) returns (r: Result<seq<byte>>)
      modifies this`pos
      ensures old(Has(n)) ==> r == Success(data[old(pos)..old(pos) + n]) && pos == old(pos) + n
      ensures !old(Has(n)) ==> r == Failure(EndOfStream)
    {
      if pos + n <= |data| {
        r := Success(data[pos..pos + n]);
        pos := pos + n;
      } else {
        r := Failure(EndOfStream);
      }
    }

    method ReadByte() returns (r: Result<byte>)
      modifies this`pos
      ensures old(Has(1)) ==> r == Success(data[old(pos)]) && pos == old(pos) + 1
      ensures !old(Has(1)) ==> r == Failure(EndOfStream)
    {
      if pos + 1 <= |data| {
        r := Success(data[pos]);
        pos := pos + 1;
      } else {
        r := Failure(EndOfStream);
      }
    }

    method ReadUInt16() returns (r: Result<uint16>)
      modifies this`pos
      ensures old(Has(2)) ==> r == Success(U16Of(data[old(pos)..old(pos) + 2], bigEndian)) && pos == old(pos) + 2
      ensures !old(Has(2)) ==> r == Failure(EndOfStream)
    {
      var b :- ReadBytes(2);
      r := Success(U16Of(b, bigEndian));
    }

    method ReadUInt32() returns (r: Result<uint32>)
      modifies this`pos
      ensures old(Has(4)) ==> r == Success(U32Of(data[old(pos)..old(pos) + 4], bigEndian)) && pos == old(pos) + 4
      ensures !old(Has(4)) ==> r == Failure(EndOfStream)
    {
      var b :- ReadBytes(4);
      r := Success(U32Of(b, bigEndian));
    }

    method ReadInt32() returns (r: Result<int32>)
      modifies this`pos
      ensures old(Has(4)) ==> r == Success(I32Of(data[old(pos)..old(pos) + 4], bigEndian)) && pos == old(pos) + 4
      ensures !old(Has(4)) ==> r == Failure(EndOfStream)
    {
      var b :- ReadBytes(4);
      r := Success(I32Of(b, bigEndian));
    }

    /** Stream.Position = p: a negative position is refused. */
    method Seek(p: int) returns (r: Status)
      modifies this`pos
      ensures r.Success? <==> p >= 0
      ensures r.Success? ==> pos == p
      ensures r.Failure? ==> r.error == ArgumentOutOfRange
    {
      if p < 0 {
        return Failure(ArgumentOutOfRange);
      }
      pos := p;
      r := Done;
    }

    method EnsurePositionOrThrow(p: int) returns (r: Status)
      ensures r.Success? <==> pos == p
      ensures r.Failure? ==> r.error == PositionMismatch(p, pos)
    {
      if pos != p {
        return Failure(PositionMismatch(p, pos));
      }
      r := Done;
    }

    /** Reads `n` bytes and fails unless all of them are zero. */
    method EnsureZeroesOrThrow(n: nat) returns (r: Status)
      modifies this`pos
      ensures r.Success? <==> old(Has(n)) && AllZero(data[old(pos)..old(pos) + n])
      ensures r.Success? ==> r == Done && pos == old(pos) + n
      ensures r.Failure? ==> r.error == if old(Has(n)) then NonZeroPadding else EndOfStream
    {
      var b :- ReadBytes(n);
      if exists i :: 0 <= i < |b| && b[i] != 0 {
        return Failure(NonZeroPadding);
      }
      r := Done;
    }
  }

  /** An append-only byte sink with a byte order: the model of NativeWriter
      over a MemoryStream; its position is the number of bytes written. */
  class NativeWriter {
    var data: seq<byte>
    var bigEndian: bool

    constructor ()
      ensures data == [] && !bigEndian
    {
      data := [];
      bigEndian := false;
    }

    method WriteBytes(b: seq<byte>)
      modifies this`data
      ensures data == old(data) + b
    {
      data := data + b;
    }

    method WriteByte(b: byte)
      modifies this`data
      ensures data == old(data) + [b]
    {
      data := data + [b];
    }

    method WriteUInt16(x: uint16)
      modifies this`data
      ensures data == old(data) + U16Bytes(x, bigEndian)
    {
      data := data + U16Bytes(x, bigEndian);
    }

    method WriteUInt32(x: uint32)
      modifies this`data
      ensures data == old(data) + U32Bytes(x, bigEndian)
    {
      data := data + U32Bytes(x, bigEndian);
    }

    /** Writes an int as C# does: its low 32 bits. */
    method WriteInt32(x: int)
      modifies this`data
      ensures data == old(data) + I32Bytes(x, bigEndian)
    {
      data := data + I32Bytes(x, bigEndian);
    }

    /** WritePadding(4): zero bytes up to the next multiple of 4. */
    method WritePadding4()
      modifies this`data
      ensures data == old(data) + Zeros(PadTo4(|old(data)|))
      ensures |data| == RoundUp4(|old(data)|)
    {
      data := data + Zeros(PadTo4(|data|));
    }
  }
}
