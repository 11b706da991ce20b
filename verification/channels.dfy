/** ChannelDefinition: one channel of a packed pixel, the `bits` bits that
    start at bit `shift`, read through `mask`. */
module Channels {
  import opened Outcomes
  import opened Binary
  import opened Bits

  datatype ChannelType =
    | Typeless | Unorm | UnormSrgb | Snorm | Uint | Sint | Float | Sf16 | Uf16

  datatype ChannelDefinition =
    ChannelDefinition(kind: ChannelType, shift: byte, bits: byte, mask: uint32)

  /** The channel of the parameterless constructor. */
  const Empty := ChannelDefinition(Typeless, 0, 0, 0)

  /** The constructor with an optional mask: negative widths throw, width 0
      collapses to Empty, and the stored shift and width are truncated to a
      byte. Without a mask it takes all ones for width 32 and the low `bits`
      bits (shift count modulo 32) otherwise. */
  function NewChannel(kind: ChannelType, shift: int32, bits: int32, mask: Option<uint32>): (r: Result<ChannelDefinition>)
    ensures r.Failure? <==> bits < 0
    ensures r.Failure? ==> r.error == ArgumentOutOfRange
    ensures r.Success? && 0 <= bits < 0x100 ==> (IsEmpty(r.value) <==> r.value == Empty)
  {
    var m := if mask.Some? then mask.value else if bits == 32 then AllOnes else LowMask(bits);
    if bits < 0 then Failure(ArgumentOutOfRange)
    else if bits == 0 then Success(Empty)
    else Success(ChannelDefinition(kind, shift % 0x100, bits % 0x100, m))
  }

  /** Without a mask, a channel of width 1 to 32 gets exactly its low `bits`
      bits as mask. */
  lemma {:induction false} DefaultMaskIsLowBits(kind: ChannelType, shift: int32, bits: int32, i: nat)
    requires 1 <= bits <= 32
    ensures NewChannel(kind, shift, bits, None).Success?
    ensures NewChannel(kind, shift, bits, None).value.mask == Pow2(bits) - 1
    ensures Bit(NewChannel(kind, shift, bits, None).value.mask, i) == if i < bits then 1 else 0
  {
    assert NewChannel(kind, shift, bits, None).value.mask == Pow2(bits) - 1 by {
      DefaultMask(bits);
    }
    LowOnes(bits, i);
  }

  /** The mask the constructor picks when none is given. */
  lemma {:induction false} DefaultMask(bits: int32)
    requires 1 <= bits <= 32
    ensures (if bits == 32 then AllOnes else LowMask(bits)) == Pow2(bits) - 1
  {
    if bits == 32 {
      Pow2Word();
    } else {
      assert bits % 32 == bits;
    }
  }

  function IsEmpty(c: ChannelDefinition): (r: bool)
  {
    c.bits == 0
  }

  /** Width 0 always gives Empty, whatever the other arguments. */
  lemma {:induction false} ZeroWidthIsEmpty(kind: ChannelType, shift: int32, mask: Option<uint32>)
    ensures NewChannel(kind, shift, 0, mask) == Success(Empty)
    ensures IsEmpty(NewChannel(kind, shift, 0, mask).value)
  {
  }

  /** IEquatable: equal exactly when type, shift, width and mask agree. */
  function Equals(a: ChannelDefinition, b: ChannelDefinition): (r: bool)
    ensures r <==> a == b
  {
    a.kind == b.kind && a.shift == b.shift && a.bits == b.bits && a.mask == b.mask
  }

  // ---- FromMask ----

  /** The number of clear bits below the lowest set bit (0 for 0). */
  function TrailingZeros(m: nat): (r: nat)
  {
    if m == 0 || m % 2 == 1 then 0 else 1 + TrailingZeros(m / 2)
  }

  /** One more than the index of the highest set bit (0 for 0). */
  function BitLength(m: nat): (r: nat)
  {
    if m == 0 then 0 else 1 + BitLength(m / 2)
  }

  /** The lowest set bit of a nonzero m is bit TrailingZeros(m). */
  lemma {:induction false} LowestSetBit(m: nat)
    requires m != 0
    ensures Bit(m, TrailingZeros(m)) == 1
    ensures forall i :: 0 <= i < TrailingZeros(m) ==> Bit(m, i) == 0
    ensures TrailingZeros(m) < BitLength(m)
  {
    if m % 2 == 0 {
      LowestSetBit(m / 2);
      BitHalf(m / 2, 0, TrailingZeros(m / 2));
      forall i | 0 <= i < TrailingZeros(m)
        ensures Bit(m, i) == 0
      {
        BitHalf(m / 2, 0, if i == 0 then 0 else i - 1);
      }
    }
  }

  /** A nonzero m lies in [2^(BitLength(m) - 1), 2^BitLength(m)): its
      highest set bit is bit BitLength(m) - 1. */
  lemma {:induction false} HighestSetBit(m: nat)
    requires m != 0
    ensures Pow2(BitLength(m) - 1) <= m < Pow2(BitLength(m))
    ensures Bit(m, BitLength(m) - 1) == 1
  {
    var h := m / 2;
    assert BitLength(m) == 1 + BitLength(h);
    if h == 0 {
      assert m == 1;
    } else {
      var k := BitLength(h);
      HighestSetBit(h);
      assert Pow2(k - 1) <= h < Pow2(k);
      assert Pow2(k + 1) == 2 * Pow2(k);
      assert m == 2 * h + m % 2;
      BitHalf(h, m % 2, k - 1);
    }
  }

  lemma {:induction false} BitLengthBelow(m: nat, n: nat)
    requires m < Pow2(n)
    ensures BitLength(m) <= n
    decreases n
  {
    if m != 0 {
      BitLengthBelow(m / 2, n - 1);
    }
  }

  /** The channel FromMask returns: Empty for 0, otherwise shift = the
      trailing-zero count and width = the distance from it to one past the
      highest set bit, through the constructor's default mask. */
  function ChannelOf(kind: ChannelType, mask: uint32): (c: ChannelDefinition)
    ensures mask == 0 ==> c == Empty
    ensures mask != 0 ==> Spans(c, mask)
  {
    if mask == 0 then Empty
    else
      MaskChannel(kind, mask);
      NewChannel(kind, TrailingZeros(mask), BitLength(mask) - TrailingZeros(mask), None).value
  }

  /** c covers a nonzero mask exactly: its lowest bit is the mask's lowest
      set bit, its highest bit the mask's highest set bit, and its own mask
      is `bits` ones. */
  ghost predicate Spans(c: ChannelDefinition, mask: nat)
  {
    && Bit(mask, c.shift) == 1
    && (forall i :: 0 <= i < c.shift ==> Bit(mask, i) == 0)
    && c.bits >= 1 && c.shift + c.bits <= 32
    && Bit(mask, c.shift + c.bits - 1) == 1
    && mask < Pow2(c.shift + c.bits)
    && c.mask == Pow2(c.bits) - 1
  }

  /** The channel built from a nonzero mask's lowest set bit and bit length
      spans the mask. */
  lemma {:induction false} MaskChannel(kind: ChannelType, mask: uint32)
    requires mask != 0
    ensures 0 <= TrailingZeros(mask) < BitLength(mask) <= 32
    ensures var r := NewChannel(kind, TrailingZeros(mask), BitLength(mask) - TrailingZeros(mask), None);
      r.Success? && Spans(r.value, mask)
  {
    var t := TrailingZeros(mask);
    var n := BitLength(mask);
    LowestSetBit(mask);
    HighestSetBit(mask);
    Pow2Word();
    BitLengthBelow(mask, 32);
    DefaultChannel(kind, t, n - t);
    var c := NewChannel(kind, t, n - t, None).value;
    assert c.shift + c.bits == n;
  }

  /** Without a mask, a shift below 256 and a width of 1 to 32 are kept as
      they are, with the low `bits` bits as mask. */
  lemma {:induction false} DefaultChannel(kind: ChannelType, shift: int, bits: int)
    requires 0 <= shift < 0x100 && 1 <= bits <= 32
    ensures Pow2(bits) <= 0x1_0000_0000
    ensures NewChannel(kind, shift, bits, None)
         == Success(ChannelDefinition(kind, shift, bits, Pow2(bits) - 1))
  {
    Pow2Word();
    Pow2Below(bits, 32);
  }

  /** FromMask: the two loops count the trailing zeros, then the remaining
      bits up to the highest set one. */
  method FromMask(kind: ChannelType, mask: uint32) returns (c: ChannelDefinition)
    ensures c == ChannelOf(kind, mask)
  {
    if mask == 0 {
      return Empty;
    }
    var shift := 0;
    var bits := 0;
    var m: nat := mask;
    LowBit(m);
    while m != 0 && And(m, 1) == 0
      invariant m != 0
      invariant And(m, 1) == m % 2
      invariant TrailingZeros(mask) == shift + TrailingZeros(m)
      invariant BitLength(mask) == shift + BitLength(m)
      decreases m
    {
      shift := shift + 1;
      HalveStep(m);
      m := Shr(m, 1);
      LowBit(m);
    }
    assert shift == TrailingZeros(mask);
    while m != 0
      invariant BitLength(mask) == shift + bits + BitLength(m)
      decreases m
    {
      bits := bits + 1;
      HalveStep(m);
      m := Shr(m, 1);
    }
    assert bits == BitLength(mask) - TrailingZeros(mask);
    assert 1 <= bits && shift + bits <= 32 by {
      LowestSetBit(mask);
      Pow2Word();
      BitLengthBelow(mask, 32);
    }
    c := NewChannel(kind, shift, bits, None).value;
  }

  /** `m & 1` is the low bit of m. */
  lemma {:induction false} LowBit(m: nat)
    ensures And(m, 1) == m % 2
  {
    if m != 0 {
      assert And(m / 2, 0) == 0;
    }
  }

  /** `m >> 1` halves m, dropping one trailing zero and one bit of length. */
  lemma {:induction false} HalveStep(m: nat)
    requires m != 0
    ensures Shr(m, 1) == m / 2
    ensures BitLength(m) == 1 + BitLength(m / 2)
    ensures m % 2 == 0 ==> TrailingZeros(m) == 1 + TrailingZeros(m / 2)
  {
    assert Pow2(1) == 2;
  }

  /** A run of `bits` ones moved up by `shift` fits a 32-bit mask when it
      ends at or below bit 32. */
  lemma {:induction false} ContiguousFits(shift: nat, bits: nat)
    requires shift + bits <= 32
    ensures 0 <= (Pow2(bits) - 1) * Pow2(shift) < 0x1_0000_0000
  {
    var b := Pow2(bits);
    var s := Pow2(shift);
    assert (b - 1) * s == b * s - s;
    Pow2Add(bits, shift);
    Pow2Below(bits + shift, 32);
    Pow2Word();
    MulPos(b, s);
  }

  /** A contiguous mask m of `bits` ones at `shift` comes back as that shift
      and width, and its channel mask moved up by the shift is m again
      (`Mask << Shift == m`). */
  lemma {:induction false} ContiguousRoundTrip(kind: ChannelType, shift: nat, bits: nat, m: uint32)
    requires 1 <= bits && shift + bits <= 32 && m == (Pow2(bits) - 1) * Pow2(shift)
    ensures Pow2(bits) <= 0x1_0000_0000
    ensures ChannelOf(kind, m) == ChannelDefinition(kind, shift, bits, Pow2(bits) - 1)
    ensures ChannelOf(kind, m).mask * Pow2(ChannelOf(kind, m).shift) == m
  {
    OnesNonzero(bits, shift);
    assert ChannelOf(kind, m) == NewChannel(kind, shift, bits, None).value by {
      ShiftedOnes(bits, shift);
    }
    DefaultChannel(kind, shift, bits);
  }

  lemma {:induction false} OnesNonzero(bits: nat, shift: nat)
    requires bits >= 1
    ensures (Pow2(bits) - 1) * Pow2(shift) >= 1
  {
    assert Pow2(bits) == 2 * Pow2(bits - 1);
    MulPos(Pow2(bits) - 1, Pow2(shift));
  }

  lemma {:induction false} ShiftedOnes(bits: nat, shift: nat)
    requires bits >= 1
    ensures TrailingZeros((Pow2(bits) - 1) * Pow2(shift)) == shift
    ensures BitLength((Pow2(bits) - 1) * Pow2(shift)) == shift + bits
    decreases shift
  {
    if shift == 0 {
      OnesLength(bits);
    } else {
      var m := (Pow2(bits) - 1) * Pow2(shift - 1);
      assert (Pow2(bits) - 1) * Pow2(shift) == 2 * m;
      ShiftedOnes(bits, shift - 1);
      assert m != 0 by {
        assert Pow2(bits) >= 2;
      }
    }
  }

  lemma {:induction false} OnesLength(bits: nat)
    requires bits >= 1
    ensures TrailingZeros(Pow2(bits) - 1) == 0
    ensures BitLength(Pow2(bits) - 1) == bits
  {
    if bits > 1 {
      OnesLength(bits - 1);
      assert (Pow2(bits) - 1) / 2 == Pow2(bits - 1) - 1;
    }
  }

  // ---- DecodeValueAsUnorm ----

  /** The raw channel value: the 64-bit pixel shifted down by Shift (count
      modulo 64) and masked; it never exceeds the mask. */
  function RawValue(c: ChannelDefinition, data: nat): (v: uint32)
    ensures v <= c.mask
  {
    And(Shr(data, c.shift % 64), c.mask)
  }

  /** An exact integer result, or the fallback through DecodeValueAsFloat
      (floating point, not part of this model). */
  datatype Decoded = Exact(value: int32) | ThroughFloat

  /** C#'s long division of a long by a positive long. */
  function LongDiv(a: int, d: nat): (q: int)
    requires d > 0
  {
    TruncDiv(a, d)
  }

  /** DecodeValueAsUnorm(data, outBits): 0 for an empty channel; otherwise
      the raw value scaled to outBits bits, by kind. */
  function DecodeValueAsUnorm(c: ChannelDefinition, data: nat, outBits: int32): (r: Result<Decoded>)
    requires data < 0x1_0000_0000_0000_0000
    ensures c.bits == 0 ==> r == Success(Exact(0))
    ensures r.Failure? ==> r.error == DivideByZero
  {
    if c.bits == 0 then Success(Exact(0))
    else
      match c.kind
      case Unorm | UnormSrgb | Uint | Typeless => ScaleUnsigned(RawValue(c, data), c.mask, outBits)
      case Snorm | Sint => ScaleSigned(RawValue(c, data), c.bits, c.mask, outBits)
      case _ => Success(ThroughFloat)
  }

  /** The unsigned kinds: `(int)(((1 << outBits) - 1) * v / Mask)` in long
      arithmetic; a zero mask divides by zero. */
  function ScaleUnsigned(v: uint32, mask: uint32, outBits: int32): (r: Result<Decoded>)
  {
    var scale := Wrap(Wrap(Pow2(outBits % 32)) - 1);
    if mask == 0 then Failure(DivideByZero)
    else Success(Exact(Wrap(LongDiv(scale * v, mask))))
  }

  /** The signed kinds: the sign bit is bit Bits - 1 of v; the magnitude
      (v, or its complement within Mask >> 1 when negative) is scaled to
      mid - 1, mid = 1 << (outBits - 1), and placed above mid when
      non-negative and below it when negative. Mask >> 1 == 0 divides by
      zero. */
  function ScaleSigned(v: uint32, bits: byte, mask: uint32, outBits: int32): (r: Result<Decoded>)
    requires bits >= 1
  {
    SignedAround(v, Shr(v, (bits - 1) % 32), mask / 2, Wrap(Pow2((outBits - 1) % 32)))
  }

  /** The signed scaling once the sign bit `top`, Mask >> 1 and mid are
      known. */
  function SignedAround(v: uint32, top: nat, half: nat, mid: int32): Result<Decoded>
  {
    var value := if top != 0 then And(Not(v), half) else v;
    if half == 0 then Failure(DivideByZero)
    else
      var scaled := Unsigned(Magnitude(value, half, mid));
      if top == 0 then Success(Exact(Wrap(mid + scaled)))
      else Success(Exact(Wrap(Wrap(mid - 1) - scaled)))
  }

  /** `(mid - 1) * value / (Mask >> 1)` in long arithmetic, mid - 1 in int. */
  function Magnitude(value: nat, half: nat, mid: int32): (q: int)
    requires half > 0
  {
    LongDiv(Wrap(mid - 1) * value, half)
  }

  predicate IsUnsignedKind(k: ChannelType)
  {
    k == Unorm || k == UnormSrgb || k == Uint || k == Typeless
  }

  /** C#'s int `(1 << k) - 1` is 2^(k mod 32) - 1, also for k = 31 where
      the shift itself wraps to int.MinValue. */
  lemma {:induction false} LowOnesInt(k: int)
    ensures Wrap(Wrap(Pow2(k % 32)) - 1) == Pow2(k % 32) - 1
    ensures Pow2(k % 32) - 1 < 0x8000_0000
  {
    Pow2Word();
    Pow2Below(k % 32, 31);
  }

  /** Scaling v in [0, m] by s / m lands in [0, s], hitting both ends. */
  lemma {:induction false} ScaleDown(s: nat, v: nat, m: nat)
    requires 0 < m && v <= m
    ensures 0 <= LongDiv(s * v, m) <= s
    ensures v == 0 ==> LongDiv(s * v, m) == 0
    ensures v == m ==> LongDiv(s * v, m) == s
  {
    MulMono(s, v, m);
    DivBelow(s * v, s, m);
    if v == m {
      MulDiv(s, m);
    }
  }

  /** The unsigned scaling lies in [0, 2^(outBits mod 32) - 1], gives 0 for
      v = 0 and the maximum for v = Mask; only a zero mask throws. */
  lemma {:induction false} UnsignedRange(v: uint32, mask: uint32, outBits: int32)
    requires v <= mask
    ensures ScaleUnsigned(v, mask, outBits).Failure? <==> mask == 0
    ensures mask != 0 ==>
      var r := ScaleUnsigned(v, mask, outBits);
      && r.Success? && r.value.Exact?
      && 0 <= r.value.value <= Pow2(outBits % 32) - 1
      && (v == 0 ==> r.value.value == 0)
      && (v == mask ==> r.value.value == Pow2(outBits % 32) - 1)
  {
    if mask != 0 {
      LowOnesInt(outBits);
      ScaleDown(Pow2(outBits % 32) - 1, v, mask);
    }
  }

  /** DecodeValueAsUnorm for the unsigned kinds: the result lies in
      [0, 2^outBits - 1] (outBits taken modulo 32 as C# shifts it), a raw
      value of 0 gives 0 and a raw value equal to the mask the maximum;
      only a zero mask throws. */
  lemma {:induction false} UnormRange(c: ChannelDefinition, data: nat, outBits: int32)
    requires data < 0x1_0000_0000_0000_0000
    requires c.bits != 0 && IsUnsignedKind(c.kind)
    ensures DecodeValueAsUnorm(c, data, outBits).Failure? <==> c.mask == 0
    ensures c.mask != 0 ==>
      var r := DecodeValueAsUnorm(c, data, outBits);
      && r.Success? && r.value.Exact?
      && 0 <= r.value.value <= Pow2(outBits % 32) - 1
      && (RawValue(c, data) == 0 ==> r.value.value == 0)
      && (RawValue(c, data) == c.mask ==> r.value.value == Pow2(outBits % 32) - 1)
  {
    UnsignedRange(RawValue(c, data), c.mask, outBits);
  }

  /** A value below 2p has its sign bit (v / p) set exactly when v >= p. */
  lemma {:induction false} SignBit(v: nat, p: nat)
    requires p > 0 && v < 2 * p
    ensures v / p == 0 <==> v < p
  {
    if v >= p {
      assert (v - p) / p == 0;
      assert v / p == 1;
    }
  }

  /** Over a contiguous mask of 2 to 32 bits (sign bit p = 2^(bits - 1))
      the signed scaling places the magnitude, which lies in [0, mid - 1],
      above mid = 2^(outBits - 1) for a clear sign bit and below it for a
      set one. */
  lemma {:induction false} SignedForm(v: uint32, bits: byte, outBits: int32, p: nat, mid: int32)
    requires 1 <= bits && 1 <= outBits && p == Pow2(bits - 1) && mid == Pow2(outBits - 1)
    requires 2 <= p <= 0x8000_0000 && Pow2(bits) == 2 * p && v < 2 * p
    requires 1 <= mid <= 0x4000_0000 && (bits - 1) % 32 == bits - 1 && (outBits - 1) % 32 == outBits - 1
    ensures
      var value := if v < p then v else And(Not(v), p - 1);
      && 0 <= Magnitude(value, p - 1, mid) <= mid - 1
      && ScaleSigned(v, bits, Pow2(bits) - 1, outBits)
         == Success(Exact(if v < p then mid + Magnitude(value, p - 1, mid)
                          else mid - 1 - Magnitude(value, p - 1, mid)))
  {
    var top := Shr(v, (bits - 1) % 32);
    assert top != 0 <==> v >= p by { SignBit(v, p); }
    assert (Pow2(bits) - 1) / 2 == p - 1 by { HalfOdd(p); }
    OffsetBinary(mid, 0);
    assert Wrap(Pow2((outBits - 1) % 32)) == mid;
    assert ScaleSigned(v, bits, Pow2(bits) - 1, outBits) == SignedAround(v, top, p - 1, mid);
    SignedScale(v, top, p - 1, mid);
    var value := if v < p then v else And(Not(v), p - 1);
    assert value == if top != 0 then And(Not(v), p - 1) else v;
    var g := Magnitude(value, p - 1, mid);
    assert (if top == 0 then mid + g else mid - 1 - g) == (if v < p then mid + g else mid - 1 - g);
  }

  /** Mask >> 1 positive and mid in [1, 2^30]: the magnitude lies in
      [0, mid - 1] and is placed above mid for a clear sign bit and below it
      for a set one. */
  lemma {:induction false} SignedScale(v: uint32, top: nat, half: nat, mid: int32)
    requires half > 0 && 1 <= mid <= 0x4000_0000
    requires top == 0 ==> v <= half
    ensures var value := if top != 0 then And(Not(v), half) else v;
      && 0 <= Magnitude(value, half, mid) <= mid - 1
      && SignedAround(v, top, half, mid)
         == Success(Exact(if top == 0 then mid + Magnitude(value, half, mid) else mid - 1 - Magnitude(value, half, mid)))
  {
    var value := if top != 0 then And(Not(v), half) else v;
    assert value <= half;
    OffsetBinary(mid, 0);
    var q := Magnitude(value, half, mid);
    assert q == LongDiv((mid - 1) * value, half);
    assert 0 <= q <= mid - 1 by { ScaleDown(mid - 1, value, half); }
    OffsetBinary(mid, q);
  }

  lemma {:induction false} Mod32Small(k: int)
    requires 0 <= k < 32
    ensures k % 32 == k
  {
  }

  lemma {:induction false} HalfOdd(p: nat)
    requires p >= 1
    ensures (2 * p - 1) / 2 == p - 1
  {
  }

  /** The signed scaling over a contiguous mask of 2 to 32 bits lies in
      [0, 2^outBits - 1] and reaches 2^(outBits - 1) exactly when the sign
      bit of v is clear. */
  lemma {:induction false} SignedRange(v: uint32, bits: byte, outBits: int32)
    requires 2 <= bits <= 32 && v < Pow2(bits) && 1 <= outBits <= 31
    ensures Pow2(bits) - 1 < 0x1_0000_0000
    ensures
      var r := ScaleSigned(v, bits, Pow2(bits) - 1, outBits);
      && r.Success? && r.value.Exact?
      && 0 <= r.value.value <= Pow2(outBits) - 1
      && (r.value.value >= Pow2(outBits - 1) <==> v < Pow2(bits - 1))
  {
    Pow2Word();
    Pow2Below(bits, 32);
    Pow2Below(1, bits - 1);
    Pow2Below(outBits - 1, 30);
    assert Pow2(31) == 2 * Pow2(30);
    var p, mid := Pow2(bits - 1), Pow2(outBits - 1);
    assert Pow2(bits) == 2 * p;
    assert Pow2(outBits) == 2 * mid;
    assert 2 <= p <= 0x8000_0000 && 1 <= mid <= 0x4000_0000;
    assert (bits - 1) % 32 == bits - 1 by { Mod32Small(bits - 1); }
    assert (outBits - 1) % 32 == outBits - 1 by { Mod32Small(outBits - 1); }
    SignedForm(v, bits, outBits, p, mid);
  }

  /** The int and uint conversions around the signed scaling change
      nothing when the scaled magnitude is below mid <= 2^30. */
  lemma {:induction false} OffsetBinary(mid: int, q: int)
    requires 1 <= mid <= 0x4000_0000 && 0 <= q <= mid - 1
    ensures Wrap(mid) == mid && Wrap(mid - 1) == mid - 1 && Unsigned(q) == q
    ensures Wrap(mid + q) == mid + q && Wrap(mid - 1 - q) == mid - 1 - q
  {
  }

  /** DecodeValueAsUnorm for the signed kinds over a contiguous mask of 2 to
      32 bits: the result lies in [0, 2^outBits - 1] and is at least
      2^(outBits - 1) exactly when the raw value's sign bit is clear. */
  lemma {:induction false} SnormRange(c: ChannelDefinition, data: nat, outBits: int32)
    requires data < 0x1_0000_0000_0000_0000
    requires c.kind == Snorm || c.kind == Sint
    requires 2 <= c.bits <= 32 && c.mask == Pow2(c.bits) - 1 && 1 <= outBits <= 31
    ensures
      var r := DecodeValueAsUnorm(c, data, outBits);
      && r.Success? && r.value.Exact?
      && 0 <= r.value.value <= Pow2(outBits) - 1
      && (r.value.value >= Pow2(outBits - 1) <==> RawValue(c, data) < Pow2(c.bits - 1))
  {
    SignedRange(RawValue(c, data), c.bits, outBits);
  }
}
