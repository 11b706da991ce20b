/** YuvPixelFormat: a packed luma/chroma pixel described by five channels,
    whose bits per pixel is the furthest extent of any of them. */
module PixelFormats {
  import opened Outcomes
  import opened Channels

  /** The alpha interpretation of a pixel format (None, Straight,
      Premultiplied, Custom). */
  datatype AlphaType = NoAlpha | Straight | Premultiplied | Custom

  datatype YuvPixelFormat = YuvPixelFormat(
    alpha: AlphaType,
    y: ChannelDefinition, u: ChannelDefinition, v: ChannelDefinition,
    a: ChannelDefinition, x: ChannelDefinition,
    bpp: int)

  /** How far up the pixel a channel reaches: Bits + Shift. */
  function Extent(c: ChannelDefinition): int
  {
    c.bits + c.shift
  }

  /** Enumerable.Max over a nonempty list. */
  function MaxOf(xs: seq<int>): (m: int)
    requires |xs| > 0
    ensures forall i :: 0 <= i < |xs| ==> xs[i] <= m
    ensures exists i :: 0 <= i < |xs| && xs[i] == m
  {
    if |xs| == 1 then xs[0]
    else
      var rest := MaxOf(xs[1..]);
      assert forall i :: 1 <= i < |xs| ==> xs[i] == xs[1..][i - 1];
      if xs[0] >= rest then xs[0] else rest
  }

  function OrEmpty(c: Option<ChannelDefinition>): ChannelDefinition
  {
    if c.Some? then c.value else Empty
  }

  /** The constructor: channels not given are Empty, and Bpp is the
      largest Bits + Shift of the five. */
  function NewYuv(alpha: AlphaType,
                  y: Option<ChannelDefinition>, u: Option<ChannelDefinition>, v: Option<ChannelDefinition>,
                  a: Option<ChannelDefinition>, x: Option<ChannelDefinition>): (f: YuvPixelFormat)
    ensures y.None? ==> f.y == Empty
    ensures u.None? ==> f.u == Empty
    ensures v.None? ==> f.v == Empty
    ensures a.None? ==> f.a == Empty
    ensures x.None? ==> f.x == Empty
    ensures BppIsMax(f)
  {
    var f0 := YuvPixelFormat(alpha, OrEmpty(y), OrEmpty(u), OrEmpty(v), OrEmpty(a), OrEmpty(x), 0);
    var extents := [Extent(f0.y), Extent(f0.u), Extent(f0.v), Extent(f0.a), Extent(f0.x)];
    var m := MaxOf(extents);
    assert extents[0] <= m && extents[1] <= m && extents[2] <= m && extents[3] <= m && extents[4] <= m;
    assert m == extents[0] || m == extents[1] || m == extents[2] || m == extents[3] || m == extents[4];
    f0.(bpp := m)
  }

  /** Bpp is at least every channel's extent and equal to one of them. */
  ghost predicate BppIsMax(f: YuvPixelFormat)
  {
    && Extent(f.y) <= f.bpp && Extent(f.u) <= f.bpp && Extent(f.v) <= f.bpp
    && Extent(f.a) <= f.bpp && Extent(f.x) <= f.bpp
    && (f.bpp == Extent(f.y) || f.bpp == Extent(f.u) || f.bpp == Extent(f.v)
        || f.bpp == Extent(f.a) || f.bpp == Extent(f.x))
  }

  /** Equal exactly when the five channels and the alpha type are. */
  function Equals(p: YuvPixelFormat, q: YuvPixelFormat): (r: bool)
    ensures r <==> p.(bpp := 0) == q.(bpp := 0)
  {
    Channels.Equals(p.y, q.y) && Channels.Equals(p.u, q.u) && Channels.Equals(p.v, q.v)
    && Channels.Equals(p.a, q.a) && Channels.Equals(p.x, q.x) && p.alpha == q.alpha
  }

  /** For formats built by the constructor, Equals is plain equality: Bpp
      follows from the channels. */
  lemma {:induction false} EqualsIsEquality(p: YuvPixelFormat, q: YuvPixelFormat)
    requires BppIsMax(p) && BppIsMax(q)
    ensures Equals(p, q) <==> p == q
  {
    if Equals(p, q) {
      assert p.bpp <= q.bpp;
      assert q.bpp <= p.bpp;
    }
  }

  /** ToB8G8R8A8 is not implemented for YUV formats: whatever the surface,
      it throws. */
  function ToB8G8R8A8(f: YuvPixelFormat, target: seq<int>, targetStride: int,
                      source: seq<int>, sourceStride: int, width: int, height: int): (r: Status)
    ensures r.Failure? && r.error == NotImplemented
  {
    Failure(NotImplemented)
  }
}
