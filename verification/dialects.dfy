/** The chunk classes each dialect decodes, with the readers it runs on
    them. A container reading a chunk of one of these classes hands the
    chunk's bytes to that class's ReadFrom, with the chunk's size as the
    size it must end at, and keeps what the class's WriteTo emits after
    the header: a NodeChunk's fixed part and properties, a list chunk's
    count and records, and for the WiiU physical bones, whose WriteTo is
    not implemented, the bytes as read. */
module Dialects {
  import opened Outcomes
  import opened Binary
  import opened CryLayout
  import opened CryRoundTrip
  import opened Records
  import NodeChunks
  import CountedChunks
  import PhysicalBones

  /** NodeChunk.ReadFrom on the chunk's bytes, then the rest of its WriteTo
      in the order its header names. */
  function NodeReread(f: NodeChunks.Floats, s: seq<byte>): (r: Result<seq<byte>>)
    ensures r.Success? <==> NodeChunks.NodeOf(f, s, 0, |s|, false).Success?
    ensures r.Success? ==> HeaderSize + |r.value| == |s|
  {
    var v :- NodeChunks.NodeOf(f, s, 0, |s|, false);
    Success(NodeChunks.BodyBytes(v, NodeChunks.Vec3Words(f, v.position), IsBigEndian(v.header)))
  }

  /** A list chunk's ReadFrom on the chunk's bytes, then the count and the
      records in the order its header names. */
  function CountedReread<E>(c: RecordCodec<E>, hint: int, s: seq<byte>): (r: Result<seq<byte>>)
    ensures r.Success? <==> CountedChunks.CountedOf(c, hint, s, 0, |s|, false).Success?
  {
    var v :- CountedChunks.CountedOf(c, hint, s, 0, |s|, false);
    Success(I32Bytes(|v.items|, IsBigEndian(v.header)) + ListBytes(c, v.items, IsBigEndian(v.header)))
  }

  /** The physical bones' ReadFrom on the chunk's bytes, whose size the
      reader is given as an int32; the bytes after the header are kept. */
  function BonesReread<E>(c: RecordCodec<E>, childCount: E -> int32, s: seq<byte>): (r: Result<seq<byte>>)
    ensures r.Success? <==> PhysicalBones.PhysicalBonesOf(c, childCount, s, 0, Wrap(|s|), false).Success?
    ensures r.Success? ==> HeaderSize + |r.value| == |s|
  {
    var _ :- PhysicalBones.PhysicalBonesOf(c, childCount, s, 0, Wrap(|s|), false);
    Success(s[HeaderSize..])
  }

  /** SynergyLib decodes nodes, physical proxies and morph targets. */
  function SynergyDecoder<P, M>(f: NodeChunks.Floats, proxies: RecordCodec<P>, targets: RecordCodec<M>): Dialect
  {
    SynergyLib(s => NodeReread(f, s),
               s => CountedReread(proxies, CountedChunks.ProxyHint, s),
               s => CountedReread(targets, CountedChunks.MorphTargetHint, s))
  }

  /** The WiiU container decodes its physical bones. */
  function WiiUDecoder<B>(bones: RecordCodec<B>, childCount: B -> int32): Dialect
  {
    WiiU(s => BonesReread(bones, childCount, s))
  }

  // ---------------------------------------------------------------------
  // Node chunks.

  /** A node chunk the container reads is the node NodeChunk.ReadFrom
      finds in its bytes: its header is that node's, what the container
      would write for it is that node's WriteTo, and its WrittenSize is the
      size it was read with, so the size check after the read always
      passes for a node. */
  lemma {:induction false} NodeChunkRead<P, M>(f: NodeChunks.Floats, proxies: RecordCodec<P>, targets: RecordCodec<M>,
                                               tableHeader: ChunkHeader, data: seq<byte>, off: nat, size: int)
    requires ReadChunk(SynergyDecoder(f, proxies, targets), NodeChunk, tableHeader, data, off, size).Success?
    ensures HeaderSize <= size && off + size <= |data|
    ensures var v := NodeChunks.NodeOf(f, data[off..off + size], 0, size, false);
            var c := ReadChunk(SynergyDecoder(f, proxies, targets), NodeChunk, tableHeader, data, off, size).value;
            v.Success? && c.header == v.value.header
            && ChunkBytes(c) == NodeChunks.NodeBytes(f, v.value, IsBigEndian(v.value.header))
            && WrittenSize(c) == size
  {
    var d := SynergyDecoder(f, proxies, targets);
    DecodedChunk(d, NodeChunk, tableHeader, data, off, size);
    var s := data[off..off + size];
    var c := ReadChunk(d, NodeChunk, tableHeader, data, off, size).value;
    assert d.node(s) == NodeReread(f, s);
    NodeChunkOf(f, c, s);
  }

  /** A chunk of a class the dialect decodes and whose header is embedded
      is its bytes' header together with what the reader keeps of them. */
  lemma {:induction false} DecodedChunk(d: Dialect, cls: ChunkClass, tableHeader: ChunkHeader, data: seq<byte>, off: nat, size: int)
    requires ReadChunk(d, cls, tableHeader, data, off, size).Success?
    requires EmbedsHeader(cls) && Decoder(d, cls).Some?
    ensures HeaderSize <= size && off + size <= |data|
    ensures var s := data[off..off + size];
            var c := ReadChunk(d, cls, tableHeader, data, off, size).value;
            c.cls == cls && c.header == HeaderOf(s[0..HeaderSize], false)
            && Decoder(d, cls).value(s) == Success(c.body)
  {
    ReadChunkSound(d, cls, tableHeader, data, off, size);
    assert data[off..off + size][0..HeaderSize] == data[off..off + HeaderSize];
  }

  /** A node chunk whose header is the one at the front of its bytes and
      whose body is what NodeReread keeps of them carries the node
      NodeChunk.ReadFrom finds there, and that node's bytes. */
  lemma {:induction false} NodeChunkOf(f: NodeChunks.Floats, c: Chunk, s: seq<byte>)
    requires c.cls == NodeChunk && HeaderSize <= |s| && c.header == HeaderOf(s[0..HeaderSize], false)
    requires NodeReread(f, s) == Success(c.body)
    ensures var v := NodeChunks.NodeOf(f, s, 0, |s|, false);
            v.Success? && c.header == v.value.header
            && ChunkBytes(c) == NodeChunks.NodeBytes(f, v.value, IsBigEndian(v.value.header))
            && WrittenSize(c) == |s|
  {
    NodeRereadBody(f, s, c.body);
    NodeChunkBytes(f, c, NodeChunks.NodeOf(f, s, 0, |s|, false).value);
  }

  /** What NodeReread keeps is the body of the node NodeChunk.ReadFrom
      found, whose header is the one at the front of the bytes. */
  lemma {:induction false} NodeRereadBody(f: NodeChunks.Floats, s: seq<byte>, body: seq<byte>)
    requires NodeReread(f, s) == Success(body)
    ensures var v := NodeChunks.NodeOf(f, s, 0, |s|, false);
            v.Success? && HeaderSize + |body| == |s|
            && v.value.header == HeaderOf(s[0..HeaderSize], false)
            && body == NodeChunks.BodyBytes(v.value, NodeChunks.Vec3Words(f, v.value.position), IsBigEndian(v.value.header))
  {
  }

  /** A node chunk carrying a node's header and body holds that node's
      bytes. */
  lemma {:induction false} NodeChunkBytes(f: NodeChunks.Floats, c: Chunk, v: NodeChunks.Node)
    requires c.cls == NodeChunk && c.header == v.header
    requires c.body == NodeChunks.BodyBytes(v, NodeChunks.Vec3Words(f, v.position), IsBigEndian(v.header))
    ensures ChunkBytes(c) == NodeChunks.NodeBytes(f, v, IsBigEndian(v.header))
    ensures WrittenSize(c) == HeaderSize + |c.body|
  {
  }

  /** A node's bytes give the position patterns they were written with
      back, wherever they stand. */
  lemma {:induction false} BodyBytesFixPosition(v: NodeChunks.Node, x: seq<uint32>, y: seq<uint32>, be: bool)
    requires NodeChunks.WellFormed(v) && |x| == 3 && |y| == 3
    requires NodeChunks.BodyBytes(v, x, be) == NodeChunks.BodyBytes(v, y, be)
    ensures x == y
  {
    var b := NodeChunks.BodyBytes(v, x, be);
    AtSelf(b);
    AtSplit4(b, 0, NodeChunks.IdsBytes(v, be), NodeChunks.PoseBytes(v, x, be), NodeChunks.ControllersBytes(v, be),
      NodeChunks.PropertiesBytes(v, be));
    AtSplit4(b, 0, NodeChunks.IdsBytes(v, be), NodeChunks.PoseBytes(v, y, be), NodeChunks.ControllersBytes(v, be),
      NodeChunks.PropertiesBytes(v, be));
    AtSplit4(b, 84, WordsBytes(v.transform, be), WordsBytes(x, be), WordsBytes(v.rotation, be), WordsBytes(v.scale, be));
    AtSplit4(b, 84, WordsBytes(v.transform, be), WordsBytes(y, be), WordsBytes(v.rotation, be), WordsBytes(v.scale, be));
    WordsRoundTrip(x, be, b, 148);
    WordsRoundTrip(y, be, b, 148);
  }

  /** What the container keeps for a node chunk that NodeChunk.WriteTo
      wrote: the node with its position divided by 100, written again. */
  lemma {:induction false} NodeRereadOfBytes(f: NodeChunks.Floats, v: NodeChunks.Node, be: bool)
    requires NodeChunks.WellFormed(v) && IsBigEndian(v.header) == be && NodeChunks.Vec3Encodes(f, v.position)
    ensures NodeReread(f, NodeChunks.NodeBytes(f, v, be))
            == Success(NodeChunks.BodyBytes(v, NodeChunks.Vec3Words(f, NodeChunks.Shrunk(v.position)), be))
  {
    var s := NodeChunks.NodeBytes(f, v, be);
    AtSelf(s);
    NodeChunks.NodeReadBackShrinks(f, v, be, s, 0);
    NodeChunks.NodeImageReadBack(f, v, NodeChunks.Vec3Words(f, v.position), be, s, 0);
    var v' := v.(position := NodeChunks.Shrunk(v.position));
    NodeRereadOf(f, s, v');
    PositionAside(v, NodeChunks.Shrunk(v.position), NodeChunks.Vec3Words(f, NodeChunks.Shrunk(v.position)), be);
  }

  /** NodeReread keeps the body of the node NodeChunk.ReadFrom finds. */
  lemma {:induction false} NodeRereadOf(f: NodeChunks.Floats, s: seq<byte>, v: NodeChunks.Node)
    requires NodeChunks.NodeOf(f, s, 0, |s|, false) == Success(v)
    ensures NodeReread(f, s) == Success(NodeChunks.BodyBytes(v, NodeChunks.Vec3Words(f, v.position), IsBigEndian(v.header)))
  {
  }

  /** A node's body bytes take its position from the patterns given. */
  lemma {:induction false} PositionAside(v: NodeChunks.Node, p: NodeChunks.Vec3, x: seq<uint32>, be: bool)
    ensures NodeChunks.BodyBytes(v.(position := p), x, be) == NodeChunks.BodyBytes(v, x, be)
  {
  }

  /** With a position and its hundredth both exactly encodable, the two
      are written the same exactly at the origin. */
  lemma {:induction false} ShrunkWordsSame(f: NodeChunks.Floats, p: NodeChunks.Vec3)
    requires NodeChunks.Vec3Encodes(f, p) && NodeChunks.Vec3Encodes(f, NodeChunks.Shrunk(p))
    ensures NodeChunks.Vec3Words(f, NodeChunks.Shrunk(p)) == NodeChunks.Vec3Words(f, p) <==> p == NodeChunks.Vec3(0.0, 0.0, 0.0)
  {
    if NodeChunks.Vec3Words(f, NodeChunks.Shrunk(p)) == NodeChunks.Vec3Words(f, p) {
      NodeChunks.Vec3RoundTrip(f, p);
      NodeChunks.Vec3RoundTrip(f, NodeChunks.Shrunk(p));
    }
  }

  /** A node chunk holding what NodeChunk.WriteTo emits for a node comes
      back the same from the container exactly when the node's position
      is written the same after ReadFrom's division by 100: with both
      positions exactly encodable, exactly when the node is at the
      origin. */
  lemma {:induction false} NodeRereads<P, M>(f: NodeChunks.Floats, proxies: RecordCodec<P>, targets: RecordCodec<M>,
                                             v: NodeChunks.Node, be: bool, c: Chunk)
    requires NodeChunks.WellFormed(v) && IsBigEndian(v.header) == be && NodeChunks.Vec3Encodes(f, v.position)
    requires c.cls == NodeChunk && ChunkBytes(c) == NodeChunks.NodeBytes(f, v, be)
    ensures Rereads(SynergyDecoder(f, proxies, targets), c)
            <==> NodeChunks.Vec3Words(f, NodeChunks.Shrunk(v.position)) == NodeChunks.Vec3Words(f, v.position)
    ensures NodeChunks.Vec3Encodes(f, NodeChunks.Shrunk(v.position)) ==>
            (Rereads(SynergyDecoder(f, proxies, targets), c) <==> v.position == NodeChunks.Vec3(0.0, 0.0, 0.0))
  {
    var w := NodeChunks.Vec3Words(f, v.position);
    var w' := NodeChunks.Vec3Words(f, NodeChunks.Shrunk(v.position));
    NodeRereadOfBytes(f, v, be);
    assert c.body == ChunkBytes(c)[HeaderSize..] == NodeChunks.BodyBytes(v, w, be);
    assert Rereads(SynergyDecoder(f, proxies, targets), c)
           <==> NodeChunks.BodyBytes(v, w', be) == NodeChunks.BodyBytes(v, w, be);
    if NodeChunks.BodyBytes(v, w', be) == NodeChunks.BodyBytes(v, w, be) {
      BodyBytesFixPosition(v, w', w, be);
    }
    if NodeChunks.Vec3Encodes(f, NodeChunks.Shrunk(v.position)) {
      ShrunkWordsSame(f, v.position);
    }
  }

  // ---------------------------------------------------------------------
  // List chunks.

  /** A list chunk's WriteTo, read by its ReadFrom and written again,
      gives the same bytes after the header, when its record codec reads
      back what it writes. */
  lemma {:induction false} CountedRereadsItself<E(!new)>(c: RecordCodec<E>, hint: int, v: CountedChunks.Counted<E>, be: bool)
    requires Sound(c, hint) && IsBigEndian(v.header) == be
    requires -0x8000_0000 <= v.header.offset < 0x8000_0000 && |v.items| < 0x8000_0000
    ensures CountedReread(c, hint, CountedChunks.CountedBytes(c, v, be))
            == Success(CountedChunks.CountedBytes(c, v, be)[HeaderSize..])
  {
    var s := CountedChunks.CountedBytes(c, v, be);
    AtSelf(s);
    CountedChunks.CountedSizeIsLength(c, hint, v, be);
    CountedChunks.CountedRoundTrip(c, hint, v, be, s, 0);
    assert s == HeaderBytes(v.header, false) + (I32Bytes(|v.items|, be) + ListBytes(c, v.items, be));
  }

  /** The physical-proxy chunk that holds what its WriteTo emits comes
      back the same from the container. */
  lemma {:induction false} ProxiesReread<P(!new), M>(f: NodeChunks.Floats, proxies: RecordCodec<P>, targets: RecordCodec<M>,
                                                     v: CountedChunks.Counted<P>, be: bool, c: Chunk)
    requires Sound(proxies, CountedChunks.ProxyHint) && IsBigEndian(v.header) == be
    requires -0x8000_0000 <= v.header.offset < 0x8000_0000 && |v.items| < 0x8000_0000
    requires c.cls == CompiledPhysicalProxyChunk && ChunkBytes(c) == CountedChunks.CountedBytes(proxies, v, be)
    ensures Rereads(SynergyDecoder(f, proxies, targets), c)
  {
    CountedRereadsItself(proxies, CountedChunks.ProxyHint, v, be);
    assert c.body == ChunkBytes(c)[HeaderSize..];
  }

  /** The morph-target chunk that holds what its WriteTo emits comes back
      the same from the container. */
  lemma {:induction false} MorphTargetsReread<P, M(!new)>(f: NodeChunks.Floats, proxies: RecordCodec<P>, targets: RecordCodec<M>,
                                                          v: CountedChunks.Counted<M>, be: bool, c: Chunk)
    requires Sound(targets, CountedChunks.MorphTargetHint) && IsBigEndian(v.header) == be
    requires -0x8000_0000 <= v.header.offset < 0x8000_0000 && |v.items| < 0x8000_0000
    requires c.cls == CompiledMorphTargetsChunk && ChunkBytes(c) == CountedChunks.CountedBytes(targets, v, be)
    ensures Rereads(SynergyDecoder(f, proxies, targets), c)
  {
    CountedRereadsItself(targets, CountedChunks.MorphTargetHint, v, be);
    assert c.body == ChunkBytes(c)[HeaderSize..];
  }

  // ---------------------------------------------------------------------
  // WiiU physical bones.

  /** A physical-bones chunk the WiiU container reads is one the bones'
      ReadFrom accepts, ending exactly at the size it was read with, and
      the container keeps its bytes after the header. */
  lemma {:induction false} BonesChunkRead<B>(bones: RecordCodec<B>, childCount: B -> int32, tableHeader: ChunkHeader,
                                             data: seq<byte>, off: nat, size: int)
    requires ReadChunk(WiiUDecoder(bones, childCount), CompiledPhysicalBonesChunk, tableHeader, data, off, size).Success?
    ensures HeaderSize <= size && off + size <= |data|
    ensures PhysicalBones.PhysicalBonesOf(bones, childCount, data[off..off + size], 0, Wrap(size), false).Success?
    ensures ReadChunk(WiiUDecoder(bones, childCount), CompiledPhysicalBonesChunk, tableHeader, data, off, size).value.body
            == data[off + HeaderSize..off + size]
  {
    var d := WiiUDecoder(bones, childCount);
    ReadChunkSound(d, CompiledPhysicalBonesChunk, tableHeader, data, off, size);
    var s := data[off..off + size];
    assert BonesReread(bones, childCount, s) == Success(ReadChunk(d, CompiledPhysicalBonesChunk, tableHeader, data, off, size).value.body);
    assert s[HeaderSize..] == data[off + HeaderSize..off + size];
  }
}
