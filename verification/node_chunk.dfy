/** SynergyLib's NodeChunk: one node of the scene graph. After the chunk
    header (base byte order) comes a 204-byte fixed part in the order the
    header's flag names (on write, the order the caller asks for) and a
    length-prefixed properties string:

      +0   name, 64 bytes          +64  object id, parent id, child count,
      +80  is-group-head byte           material id (int32 each)
      +81  is-group-member byte    +82  2 bytes of zero padding
      +84  transform, 4x4 floats   +148 position, 3 floats
      +160 rotation, 4 floats      +176 scale, 3 floats
      +188 position, rotation and scale controller ids (int32 each)
      +200 properties length (int32), then the properties bytes

    (offsets from the end of the header). */
module NodeChunks {
  import opened Outcomes
  import opened Binary
  import opened CryLayout
  import opened Records

  /** IEEE 754 single precision is not part of this model: a float is
      held as its 32-bit pattern, and the one float field the chunk does
      arithmetic on is given by a decoding of that pattern to the real it
      stands for and an encoding back. */
  datatype Floats = Floats(decode: uint32 -> real, encode: real -> uint32)

  /** x has an exact single-precision encoding. */
  ghost predicate Encodes(f: Floats, x: real)
  {
    f.decode(f.encode(x)) == x
  }

  datatype Vec3 = Vec3(x: real, y: real, z: real)

  function Vec3Of(f: Floats, ws: seq<uint32>): Vec3
    requires |ws| == 3
  {
    Vec3(f.decode(ws[0]), f.decode(ws[1]), f.decode(ws[2]))
  }

  function Vec3Words(f: Floats, v: Vec3): (r: seq<uint32>)
    ensures |r| == 3
  {
    [f.encode(v.x), f.encode(v.y), f.encode(v.z)]
  }

  ghost predicate Vec3Encodes(f: Floats, v: Vec3)
  {
    Encodes(f, v.x) && Encodes(f, v.y) && Encodes(f, v.z)
  }

  /** A vector of exactly encodable floats survives encoding and decoding. */
  lemma Vec3RoundTrip(f: Floats, v: Vec3)
    requires Vec3Encodes(f, v)
    ensures Vec3Of(f, Vec3Words(f, v)) == v
  {
  }

  /** The stored position is in hundredths of the unit the node uses. */
  function Shrunk(v: Vec3): Vec3 { Vec3(v.x / 100.0, v.y / 100.0, v.z / 100.0) }
  function Grown(v: Vec3): Vec3 { Vec3(v.x * 100.0, v.y * 100.0, v.z * 100.0) }

  lemma ShrunkGrown(v: Vec3)
    ensures Shrunk(Grown(v)) == v
  {
  }

  /** The fields of a NodeChunk. The name and the properties are kept as
      their bytes; the transform (4x4, row by row), the rotation (x, y, z,
      w) and the scale as the bit patterns of their floats. */
  datatype Node = Node(
    header: ChunkHeader,
    name: seq<byte>,
    objectId: int32, parentId: int32, childCount: int32, materialId: int32,
    isGroupHead: bool, isGroupMember: bool,
    transform: seq<uint32>, position: Vec3, rotation: seq<uint32>, scale: seq<uint32>,
    positionControllerId: int32, rotationControllerId: int32, scaleControllerId: int32,
    properties: seq<byte>)

  /** The header offset and the properties length fit in an int32, and the
      fixed fields have their widths. */
  predicate WellFormed(v: Node)
  {
    -0x8000_0000 <= v.header.offset < 0x8000_0000
    && |v.name| == 64 && |v.transform| == 16 && |v.rotation| == 4 && |v.scale| == 3
    && |v.properties| < 0x8000_0000
  }

  // ---------------------------------------------------------------------
  // Reading, in four groups of fields.

  datatype Ids = Ids(name: seq<byte>, objectId: int32, parentId: int32, childCount: int32, materialId: int32,
                     isGroupHead: bool, isGroupMember: bool)
  datatype Pose = Pose(transform: seq<uint32>, position: Vec3, rotation: seq<uint32>, scale: seq<uint32>)
  datatype Controllers = Controllers(position: int32, rotation: int32, scale: int32)

  /** The name, the four ids, and the two flags with their padding. */
  function IdsAt(data: seq<byte>, q: nat, be: bool): (r: Result<Ids>)
    ensures r.Success? ==> |r.value.name| == 64
  {
    var name :- BytesAt(data, q, 64);
    var ids :- IdNumbersAt(data, q + 64, be);
    var flags :- FlagsAt(data, q + 80);
    Success(Ids(name, ids.0, ids.1, ids.2, ids.3, flags.0, flags.1))
  }

  /** Object id, parent id, child count and material id. */
  function IdNumbersAt(data: seq<byte>, q: nat, be: bool): Result<(int32, int32, int32, int32)>
  {
    var objectId :- I32At(data, q, be);
    var parentId :- I32At(data, q + 4, be);
    var childCount :- I32At(data, q + 8, be);
    var materialId :- I32At(data, q + 12, be);
    Success((objectId, parentId, childCount, materialId))
  }

  /** The two flag bytes (any non-zero byte is true) and two bytes of
      padding, which must be zero. */
  function FlagsAt(data: seq<byte>, q: nat): Result<(bool, bool)>
  {
    var head :- ByteAt(data, q);
    var member :- ByteAt(data, q + 1);
    var _ :- PadAt(data, q + 2, 2);
    Success((head != 0, member != 0))
  }

  /** The transform, the position divided by 100, the rotation and the
      scale. */
  function PoseAt(f: Floats, data: seq<byte>, q: nat, be: bool): (r: Result<Pose>)
    ensures r.Success? ==> |r.value.transform| == 16 && |r.value.rotation| == 4 && |r.value.scale| == 3
  {
    var transform :- WordsAt(data, q, 16, be);
    var position :- WordsAt(data, q + 64, 3, be);
    var rotation :- WordsAt(data, q + 76, 4, be);
    var scale :- WordsAt(data, q + 92, 3, be);
    Success(Pose(transform, Shrunk(Vec3Of(f, position)), rotation, scale))
  }

  function ControllersAt(data: seq<byte>, q: nat, be: bool): Result<Controllers>
  {
    var position :- I32At(data, q, be);
    var rotation :- I32At(data, q + 4, be);
    var scale :- I32At(data, q + 8, be);
    Success(Controllers(position, rotation, scale))
  }

  /** The length-prefixed properties and the position after them; a
      negative length is refused. */
  function PropertiesAt(data: seq<byte>, q: nat, be: bool): (r: Result<(seq<byte>, nat)>)
    ensures r.Success? ==> |r.value.0| < 0x8000_0000
  {
    var n :- I32At(data, q, be);
    if n < 0 then Failure(NegativeCount)
    else
      var b :- BytesAt(data, q + 4, n);
      Success((b, q + 4 + n))
  }

  /** Everything after the header, and the position after it. */
  datatype Body = Body(ids: Ids, pose: Pose, controllers: Controllers, properties: seq<byte>, end: nat)

  function BodyAt(f: Floats, data: seq<byte>, q: nat, be: bool): (r: Result<Body>)
    ensures r.Success? ==> Widths(r.value)
  {
    var x :- FixedAt(f, data, q, be);
    var props :- PropertiesAt(data, q + 200, be);
    Success(Body(x.0, x.1, x.2, props.0, props.1))
  }

  /** The 200 bytes before the properties. */
  function FixedAt(f: Floats, data: seq<byte>, q: nat, be: bool): (r: Result<(Ids, Pose, Controllers)>)
    ensures r.Success? ==> |r.value.0.name| == 64 && |r.value.1.transform| == 16
    ensures r.Success? ==> |r.value.1.rotation| == 4 && |r.value.1.scale| == 3
  {
    var i :- IdsAt(data, q, be);
    var o :- PoseAt(f, data, q + 84, be);
    var c :- ControllersAt(data, q + 188, be);
    Success((i, o, c))
  }

  /** The fields of a body that was read have the widths the chunk gives
      them. */
  predicate Widths(b: Body)
  {
    |b.ids.name| == 64 && |b.pose.transform| == 16 && |b.pose.rotation| == 4 && |b.pose.scale| == 3
    && |b.properties| < 0x8000_0000
  }

  function Assemble(h: ChunkHeader, b: Body): Node
  {
    Node(h, b.ids.name, b.ids.objectId, b.ids.parentId, b.ids.childCount, b.ids.materialId,
         b.ids.isGroupHead, b.ids.isGroupMember, b.pose.transform, b.pose.position, b.pose.rotation, b.pose.scale,
         b.controllers.position, b.controllers.rotation, b.controllers.scale, b.properties)
  }

  /** ReadFrom at p with the base order baseBe: the header, then the body in
      the header's order, then the check that the chunk ends exactly
      expectedSize bytes after p. */
  function NodeOf(f: Floats, data: seq<byte>, p: nat, expectedSize: int, baseBe: bool): (r: Result<Node>)
    ensures r.Success? ==> p + HeaderSize <= |data| && r.value.header == HeaderOf(data[p..p + HeaderSize], baseBe)
    ensures r.Success? ==> p + expectedSize == p + HeaderSize + 204 + |r.value.properties| <= |data|
    ensures r.Success? ==> WellFormed(r.value)
  {
    var h :- HeaderAt(data, p, baseBe);
    var b :- EndedBodyAt(f, data, p + HeaderSize, IsBigEndian(h), p + expectedSize);
    Success(Assemble(h, b))
  }

  /** The body, which must end at `end`. */
  function EndedBodyAt(f: Floats, data: seq<byte>, q: nat, be: bool, end: int): (r: Result<Body>)
    ensures r.Success? ==> r.value.end == end && Widths(r.value)
  {
    var b :- BodyAt(f, data, q, be);
    if b.end != end then Failure(PositionMismatch(end, b.end)) else Success(b)
  }

  // ---------------------------------------------------------------------
  // Writing.

  function Flag(b: bool): byte { if b then 1 else 0 }

  function IdsBytes(v: Node, be: bool): (r: seq<byte>)
    ensures |r| == 84
  {
    FixedField(v.name, 64) + IdNumbersBytes(v, be) + FlagsBytes(v)
  }

  function IdNumbersBytes(v: Node, be: bool): (r: seq<byte>)
    ensures |r| == 16
  {
    I32Bytes(v.objectId, be) + I32Bytes(v.parentId, be) + I32Bytes(v.childCount, be) + I32Bytes(v.materialId, be)
  }

  /** The flags as 1 or 0, then two zero bytes. */
  function FlagsBytes(v: Node): (r: seq<byte>)
    ensures |r| == 4
  {
    [Flag(v.isGroupHead), Flag(v.isGroupMember), 0, 0]
  }

  /** The pose with the position written as the given float patterns. */
  function PoseBytes(v: Node, position: seq<uint32>, be: bool): (r: seq<byte>)
    ensures |r| == 4 * (|v.transform| + |position| + |v.rotation| + |v.scale|)
  {
    WordsBytes(v.transform, be) + WordsBytes(position, be) + WordsBytes(v.rotation, be) + WordsBytes(v.scale, be)
  }

  function ControllersBytes(v: Node, be: bool): (r: seq<byte>)
    ensures |r| == 12
  {
    I32Bytes(v.positionControllerId, be) + I32Bytes(v.rotationControllerId, be) + I32Bytes(v.scaleControllerId, be)
  }

  /** The chunk with the position written as the given float patterns:
      the header always little-endian, the rest in the order asked for. */
  function NodeImage(v: Node, position: seq<uint32>, be: bool): seq<byte>
  {
    HeaderBytes(v.header, false) + BodyBytes(v, position, be)
  }

  function BodyBytes(v: Node, position: seq<uint32>, be: bool): seq<byte>
  {
    IdsBytes(v, be) + PoseBytes(v, position, be) + ControllersBytes(v, be) + PropertiesBytes(v, be)
  }

  /** The properties' length, then their bytes. */
  function PropertiesBytes(v: Node, be: bool): seq<byte>
  {
    I32Bytes(|v.properties|, be) + v.properties
  }

  /** WriteTo as written: the position goes out as it is held, although
      ReadFrom divides what it reads by 100. */
  function NodeBytes(f: Floats, v: Node, be: bool): seq<byte>
  {
    NodeImage(v, Vec3Words(f, v.position), be)
  }

  /** WriteTo with the position scaled back up by 100, the inverse of what
      ReadFrom does. */
  function CorrectedNodeBytes(f: Floats, v: Node, be: bool): seq<byte>
  {
    NodeImage(v, Vec3Words(f, Grown(v.position)), be)
  }

  /** WrittenSize: the header, the 204-byte fixed part and the properties. */
  function NodeSize(v: Node): nat
  {
    HeaderSize + 204 + |v.properties|
  }

  // ---------------------------------------------------------------------
  // Properties.

  lemma {:induction false} IdsRoundTrip(v: Node, be: bool, data: seq<byte>, q: nat)
    requires WellFormed(v) && At(data, q, IdsBytes(v, be))
    ensures IdsAt(data, q, be)
      == Success(Ids(v.name, v.objectId, v.parentId, v.childCount, v.materialId, v.isGroupHead, v.isGroupMember))
  {
    var a, b, c := FixedField(v.name, 64), IdNumbersBytes(v, be), FlagsBytes(v);
    AtSplit(data, q, a + b, c);
    AtSplit(data, q, a, b);
    AtSlice(data, q, a);
    IdNumbersRoundTrip(v, be, data, q + 64);
    FlagsRoundTrip(v, data, q + 80);
  }

  lemma {:induction false} IdNumbersRoundTrip(v: Node, be: bool, data: seq<byte>, q: nat)
    requires At(data, q, IdNumbersBytes(v, be))
    ensures IdNumbersAt(data, q, be) == Success((v.objectId, v.parentId, v.childCount, v.materialId))
  {
    var a0, a1, a2, a3 := I32Bytes(v.objectId, be), I32Bytes(v.parentId, be), I32Bytes(v.childCount, be),
      I32Bytes(v.materialId, be);
    AtSplit(data, q, a0 + a1 + a2, a3);
    AtSplit(data, q, a0 + a1, a2);
    AtSplit(data, q, a0, a1);
    AtSlice(data, q, a0);
    AtSlice(data, q + 4, a1);
    AtSlice(data, q + 8, a2);
    AtSlice(data, q + 12, a3);
    I32RoundTrip(v.objectId, be);
    I32RoundTrip(v.parentId, be);
    I32RoundTrip(v.childCount, be);
    I32RoundTrip(v.materialId, be);
  }

  lemma {:induction false} FlagsRoundTrip(v: Node, data: seq<byte>, q: nat)
    requires At(data, q, FlagsBytes(v))
    ensures FlagsAt(data, q) == Success((v.isGroupHead, v.isGroupMember))
  {
    AtSub(data, q, FlagsBytes(v), 2, 4);
    AtSlice(data, q + 2, FlagsBytes(v)[2..4]);
    assert data[q] == FlagsBytes(v)[0] && data[q + 1] == FlagsBytes(v)[1];
    assert AllZero(data[q + 2..q + 4]);
  }

  lemma {:induction false} PoseReadBack(f: Floats, v: Node, position: seq<uint32>, be: bool, data: seq<byte>, q: nat)
    requires WellFormed(v) && |position| == 3 && At(data, q, PoseBytes(v, position, be))
    ensures PoseAt(f, data, q, be) == Success(Pose(v.transform, Shrunk(Vec3Of(f, position)), v.rotation, v.scale))
  {
    AtSplit4(data, q, WordsBytes(v.transform, be), WordsBytes(position, be), WordsBytes(v.rotation, be),
      WordsBytes(v.scale, be));
    WordsRoundTrip(v.transform, be, data, q);
    WordsRoundTrip(position, be, data, q + 64);
    WordsRoundTrip(v.rotation, be, data, q + 76);
    WordsRoundTrip(v.scale, be, data, q + 92);
  }

  lemma {:induction false} ControllersRoundTrip(v: Node, be: bool, data: seq<byte>, q: nat)
    requires At(data, q, ControllersBytes(v, be))
    ensures ControllersAt(data, q, be) == Success(Controllers(v.positionControllerId, v.rotationControllerId, v.scaleControllerId))
  {
    var a0, a1, a2 := I32Bytes(v.positionControllerId, be), I32Bytes(v.rotationControllerId, be), I32Bytes(v.scaleControllerId, be);
    AtSplit(data, q, a0 + a1, a2);
    AtSplit(data, q, a0, a1);
    AtSlice(data, q, a0);
    AtSlice(data, q + 4, a1);
    AtSlice(data, q + 8, a2);
    I32RoundTrip(v.positionControllerId, be);
    I32RoundTrip(v.rotationControllerId, be);
    I32RoundTrip(v.scaleControllerId, be);
  }

  lemma {:induction false} PropertiesRoundTrip(v: Node, be: bool, data: seq<byte>, q: nat)
    requires WellFormed(v) && At(data, q, PropertiesBytes(v, be))
    ensures PropertiesAt(data, q, be) == Success((v.properties, q + 4 + |v.properties|))
  {
    AtSplit(data, q, I32Bytes(|v.properties|, be), v.properties);
    AtSlice(data, q, I32Bytes(|v.properties|, be));
    AtSlice(data, q + 4, v.properties);
    I32RoundTrip(|v.properties|, be);
  }

  /** Reading back a chunk written with the given position patterns gives
      every field back except the position, which comes back as those
      floats divided by 100. */
  lemma {:induction false} NodeImageReadBack(f: Floats, v: Node, position: seq<uint32>, be: bool, data: seq<byte>, p: nat)
    requires WellFormed(v) && IsBigEndian(v.header) == be && |position| == 3
    requires At(data, p, NodeImage(v, position, be))
    ensures |NodeImage(v, position, be)| == NodeSize(v)
    ensures NodeOf(f, data, p, NodeSize(v), false) == Success(v.(position := Shrunk(Vec3Of(f, position))))
  {
    var hb := HeaderBytes(v.header, false);
    AtSplit(data, p, hb, BodyBytes(v, position, be));
    AtSplit4(data, p + HeaderSize, IdsBytes(v, be), PoseBytes(v, position, be), ControllersBytes(v, be),
      PropertiesBytes(v, be));
    AtSlice(data, p, hb);
    HeaderRoundTrip(v.header, false);
    IdsRoundTrip(v, be, data, p + HeaderSize);
    PoseReadBack(f, v, position, be, data, p + HeaderSize + 84);
    ControllersRoundTrip(v, be, data, p + HeaderSize + 188);
    PropertiesRoundTrip(v, be, data, p + HeaderSize + 200);
  }

  /** As written, a node does not survive a write and a read: its position
      comes back divided by 100, so any node away from the origin changes. */
  lemma {:induction false} NodeReadBackShrinks(f: Floats, v: Node, be: bool, data: seq<byte>, p: nat)
    requires WellFormed(v) && IsBigEndian(v.header) == be && Vec3Encodes(f, v.position)
    requires At(data, p, NodeBytes(f, v, be))
    ensures NodeOf(f, data, p, NodeSize(v), false) == Success(v.(position := Shrunk(v.position)))
    ensures v.position != Vec3(0.0, 0.0, 0.0) ==> NodeOf(f, data, p, NodeSize(v), false) != Success(v)
  {
    NodeImageReadBack(f, v, Vec3Words(f, v.position), be, data, p);
    Vec3RoundTrip(f, v.position);
  }

  /** With the position scaled back up on write, every node whose scaled
      position has an exact encoding reads back as itself. */
  lemma {:induction false} CorrectedNodeRoundTrip(f: Floats, v: Node, be: bool, data: seq<byte>, p: nat)
    requires WellFormed(v) && IsBigEndian(v.header) == be && Vec3Encodes(f, Grown(v.position))
    requires At(data, p, CorrectedNodeBytes(f, v, be))
    ensures NodeOf(f, data, p, NodeSize(v), false) == Success(v)
  {
    var g := Grown(v.position);
    NodeImageReadBack(f, v, Vec3Words(f, g), be, data, p);
    Vec3RoundTrip(f, g);
    ShrunkGrown(v.position);
  }

  // ---------------------------------------------------------------------
  // The chunk object.

  class NodeChunk {
    var header: ChunkHeader
    var name: seq<byte>
    var objectId: int32
    var parentId: int32
    var childCount: int32
    var materialId: int32
    var isGroupHead: bool
    var isGroupMember: bool
    var transform: seq<uint32>
    var position: Vec3
    var rotation: seq<uint32>
    var scale: seq<uint32>
    var positionControllerId: int32
    var rotationControllerId: int32
    var scaleControllerId: int32
    var properties: seq<byte>

    /** The defaults: a zero header (the type's own defaults are not part
        of this model), an empty name and properties, the object, parent,
        child-count and material ids 0, both flags clear, all controller
        ids -1, the position at the origin, the identity rotation, unit
        scale, and a transform whose first three diagonal entries are 1 and
        every other entry, the last one included, is 0. */
    constructor (f: Floats)
      ensures header == ChunkHeader(0, 0, 0, 0)
      ensures name == [] && properties == [] && position == Vec3(0.0, 0.0, 0.0)
      ensures objectId == 0 && parentId == 0 && childCount == 0 && materialId == 0
      ensures !isGroupHead && !isGroupMember
      ensures positionControllerId == -1 && rotationControllerId == -1 && scaleControllerId == -1
      ensures var o, l := f.encode(0.0), f.encode(1.0);
        transform == [l, o, o, o, o, l, o, o, o, o, l, o, o, o, o, o] && rotation == [o, o, o, l] && scale == [l, l, l]
    {
      var o, l := f.encode(0.0), f.encode(1.0);
      header := ChunkHeader(0, 0, 0, 0);
      name := [];
      objectId, parentId, childCount, materialId := 0, 0, 0, 0;
      isGroupHead, isGroupMember := false, false;
      transform := [l, o, o, o, o, l, o, o, o, o, l, o, o, o, o, o];
      position, rotation, scale := Vec3(0.0, 0.0, 0.0), [o, o, o, l], [l, l, l];
      positionControllerId, rotationControllerId, scaleControllerId := -1, -1, -1;
      properties := [];
    }

    function Value(): Node
      reads this
    {
      Node(header, name, objectId, parentId, childCount, materialId, isGroupHead, isGroupMember,
           transform, position, rotation, scale, positionControllerId, rotationControllerId, scaleControllerId,
           properties)
    }

    method ReadFrom(reader: NativeReader, expectedSize: int, f: Floats) returns (r: Status)
      modifies this, reader`pos, reader`bigEndian
      ensures reader.bigEndian == old(reader.bigEndian)
      ensures NodeOf(f, reader.data, old(reader.pos), expectedSize, old(reader.bigEndian))
        == if r.Success? then Success(Value()) else Failure(r.error)
    {
      var v :- ReadNode(reader, expectedSize, f);
      Set(v);
      r := Done;
    }

    /** Takes every field from the node. */
    method Set(v: Node)
      modifies this
      ensures Value() == v
    {
      header := v.header;
      SetIds(v);
      SetPose(v);
      SetControllers(v);
      properties := v.properties;
    }

    method SetIds(v: Node)
      modifies this`name, this`objectId, this`parentId, this`childCount, this`materialId,
        this`isGroupHead, this`isGroupMember
      ensures name == v.name && objectId == v.objectId && parentId == v.parentId && childCount == v.childCount
      ensures materialId == v.materialId && isGroupHead == v.isGroupHead && isGroupMember == v.isGroupMember
    {
      name, objectId, parentId, childCount := v.name, v.objectId, v.parentId, v.childCount;
      materialId, isGroupHead, isGroupMember := v.materialId, v.isGroupHead, v.isGroupMember;
    }

    method SetPose(v: Node)
      modifies this`transform, this`position, this`rotation, this`scale
      ensures transform == v.transform && position == v.position && rotation == v.rotation && scale == v.scale
    {
      transform, position, rotation, scale := v.transform, v.position, v.rotation, v.scale;
    }

    method SetControllers(v: Node)
      modifies this`positionControllerId, this`rotationControllerId, this`scaleControllerId
      ensures positionControllerId == v.positionControllerId && rotationControllerId == v.rotationControllerId
      ensures scaleControllerId == v.scaleControllerId
    {
      positionControllerId, rotationControllerId, scaleControllerId :=
        v.positionControllerId, v.rotationControllerId, v.scaleControllerId;
    }

    /** WriteTo as written (see NodeBytes). */
    method WriteTo(writer: NativeWriter, useBigEndian: bool, f: Floats)
      modifies writer`data, writer`bigEndian
      ensures writer.bigEndian == old(writer.bigEndian)
      ensures writer.data == old(writer.data) + NodeBytes(f, Value(), useBigEndian)
    {
      WriteNode(writer, f, Value(), useBigEndian);
    }

    function WrittenSize(): nat
      reads this
    {
      NodeSize(Value())
    }
  }

  // ---------------------------------------------------------------------
  // The steps of ReadFrom and WriteTo.

  /** ReadFrom, as the node it reads. */
  method ReadNode(reader: NativeReader, expectedSize: int, f: Floats) returns (r: Result<Node>)
    modifies reader`pos, reader`bigEndian
    ensures reader.bigEndian == old(reader.bigEndian)
    ensures r == NodeOf(f, reader.data, old(reader.pos), expectedSize, old(reader.bigEndian))
  {
    var start := reader.pos;
    var h :- ReadChunkHeader(reader);
    var saved := reader.bigEndian;
    reader.bigEndian := IsBigEndian(h);
    var b := ReadEndedBody(reader, f, start + expectedSize);
    reader.bigEndian := saved;
    if b.Failure? {
      return Failure(b.error);
    }
    r := Success(Assemble(h, b.value));
  }

  /** The part of ReadFrom inside the byte-order scope, and the final
      position check. */
  method ReadEndedBody(reader: NativeReader, f: Floats, end: int) returns (r: Result<Body>)
    modifies reader`pos
    ensures r == EndedBodyAt(f, reader.data, old(reader.pos), reader.bigEndian, end)
  {
    var b :- ReadBody(reader, f);
    var at := reader.EnsurePositionOrThrow(end);
    if at.Failure? {
      return Failure(at.error);
    }
    r := Success(b);
  }

  /** The part of ReadFrom inside the byte-order scope. */
  method ReadBody(reader: NativeReader, f: Floats) returns (r: Result<Body>)
    modifies reader`pos
    ensures r == BodyAt(f, reader.data, old(reader.pos), reader.bigEndian)
    ensures r.Success? ==> reader.pos == r.value.end
  {
    var x :- ReadFixed(reader, f);
    var props :- ReadProperties(reader);
    r := Success(Body(x.0, x.1, x.2, props, reader.pos));
  }

  method ReadFixed(reader: NativeReader, f: Floats) returns (r: Result<(Ids, Pose, Controllers)>)
    modifies reader`pos
    ensures r == FixedAt(f, reader.data, old(reader.pos), reader.bigEndian)
    ensures r.Success? ==> reader.pos == old(reader.pos) + 200
  {
    var i :- ReadIds(reader);
    var o :- ReadPose(reader, f);
    var c :- ReadControllers(reader);
    r := Success((i, o, c));
  }

  method ReadProperties(reader: NativeReader) returns (r: Result<seq<byte>>)
    modifies reader`pos
    ensures PropertiesAt(reader.data, old(reader.pos), reader.bigEndian)
      == if r.Success? then Success((r.value, reader.pos)) else Failure(r.error)
  {
    var n :- ReadI32At(reader);
    if n < 0 {
      return Failure(NegativeCount);
    }
    r := ReadBytesAt(reader, n);
  }

  method ReadIds(reader: NativeReader) returns (r: Result<Ids>)
    modifies reader`pos
    ensures r == IdsAt(reader.data, old(reader.pos), reader.bigEndian)
    ensures r.Success? ==> reader.pos == old(reader.pos) + 84
  {
    var name :- ReadBytesAt(reader, 64);
    var ids :- ReadIdNumbers(reader);
    var flags :- ReadFlags(reader);
    r := Success(Ids(name, ids.0, ids.1, ids.2, ids.3, flags.0, flags.1));
  }

  method ReadIdNumbers(reader: NativeReader) returns (r: Result<(int32, int32, int32, int32)>)
    modifies reader`pos
    ensures r == IdNumbersAt(reader.data, old(reader.pos), reader.bigEndian)
    ensures r.Success? ==> reader.pos == old(reader.pos) + 16
  {
    var objectId :- ReadI32At(reader);
    var parentId :- ReadI32At(reader);
    var childCount :- ReadI32At(reader);
    var materialId :- ReadI32At(reader);
    r := Success((objectId, parentId, childCount, materialId));
  }

  method ReadFlags(reader: NativeReader) returns (r: Result<(bool, bool)>)
    modifies reader`pos
    ensures r == FlagsAt(reader.data, old(reader.pos))
    ensures r.Success? ==> reader.pos == old(reader.pos) + 4
  {
    var head :- ReadByteAt(reader);
    var member :- ReadByteAt(reader);
    var _ :- ZeroesAt(reader, 2);
    r := Success((head != 0, member != 0));
  }

  method ReadPose(reader: NativeReader, f: Floats) returns (r: Result<Pose>)
    modifies reader`pos
    ensures r == PoseAt(f, reader.data, old(reader.pos), reader.bigEndian)
    ensures r.Success? ==> reader.pos == old(reader.pos) + 104
  {
    var transform :- ReadWords(reader, 16);
    var position :- ReadWords(reader, 3);
    var rotation :- ReadWords(reader, 4);
    var scale :- ReadWords(reader, 3);
    r := Success(Pose(transform, Shrunk(Vec3Of(f, position)), rotation, scale));
  }

  method ReadControllers(reader: NativeReader) returns (r: Result<Controllers>)
    modifies reader`pos
    ensures r == ControllersAt(reader.data, old(reader.pos), reader.bigEndian)
    ensures r.Success? ==> reader.pos == old(reader.pos) + 12
  {
    var position :- ReadI32At(reader);
    var rotation :- ReadI32At(reader);
    var scale :- ReadI32At(reader);
    r := Success(Controllers(position, rotation, scale));
  }

  /** WriteTo, given the node it writes. */
  method WriteNode(writer: NativeWriter, f: Floats, v: Node, useBigEndian: bool)
    modifies writer`data, writer`bigEndian
    ensures writer.bigEndian == old(writer.bigEndian)
    ensures writer.data == old(writer.data) + NodeBytes(f, v, useBigEndian)
  {
    writer.WriteBytes(HeaderBytes(v.header, false));
    var saved := writer.bigEndian;
    writer.bigEndian := useBigEndian;
    WriteBody(writer, f, v);
    writer.bigEndian := saved;
    Appended(old(writer.data), HeaderBytes(v.header, false), BodyBytes(v, Vec3Words(f, v.position), useBigEndian));
  }

  /** The part of WriteTo inside the byte-order scope. */
  method WriteBody(writer: NativeWriter, f: Floats, v: Node)
    modifies writer`data
    ensures writer.data == old(writer.data) + BodyBytes(v, Vec3Words(f, v.position), writer.bigEndian)
  {
    ghost var d0, be := writer.data, writer.bigEndian;
    ghost var pos := Vec3Words(f, v.position);
    WriteIds(writer, v);
    WritePose(writer, f, v);
    WriteControllers(writer, v);
    WriteProperties(writer, v);
    Appended4(d0, IdsBytes(v, be), PoseBytes(v, pos, be), ControllersBytes(v, be), PropertiesBytes(v, be));
  }

  method WriteProperties(writer: NativeWriter, v: Node)
    modifies writer`data
    ensures writer.data == old(writer.data) + PropertiesBytes(v, writer.bigEndian)
  {
    writer.WriteInt32(|v.properties|);
    writer.WriteBytes(v.properties);
  }

  method WriteIds(writer: NativeWriter, v: Node)
    modifies writer`data
    ensures writer.data == old(writer.data) + IdsBytes(v, writer.bigEndian)
  {
    writer.WriteBytes(FixedField(v.name, 64));
    WriteIdNumbers(writer, v);
    WriteFlags(writer, v);
    Appended3(old(writer.data), FixedField(v.name, 64), IdNumbersBytes(v, writer.bigEndian), FlagsBytes(v));
  }

  method WriteIdNumbers(writer: NativeWriter, v: Node)
    modifies writer`data
    ensures writer.data == old(writer.data) + IdNumbersBytes(v, writer.bigEndian)
  {
    writer.WriteInt32(v.objectId);
    writer.WriteInt32(v.parentId);
    writer.WriteInt32(v.childCount);
    writer.WriteInt32(v.materialId);
  }

  method WriteFlags(writer: NativeWriter, v: Node)
    modifies writer`data
    ensures writer.data == old(writer.data) + FlagsBytes(v)
  {
    writer.WriteByte(Flag(v.isGroupHead));
    writer.WriteByte(Flag(v.isGroupMember));
    writer.WriteUInt16(0);
    assert U16Bytes(0, writer.bigEndian) == [0, 0];
  }

  method WritePose(writer: NativeWriter, f: Floats, v: Node)
    modifies writer`data
    ensures writer.data == old(writer.data) + PoseBytes(v, Vec3Words(f, v.position), writer.bigEndian)
  {
    ghost var d0, be := writer.data, writer.bigEndian;
    var position := Vec3Words(f, v.position);
    WriteWords(writer, v.transform);
    WriteWords(writer, position);
    WriteWords(writer, v.rotation);
    WriteWords(writer, v.scale);
    Appended4(d0, WordsBytes(v.transform, be), WordsBytes(position, be), WordsBytes(v.rotation, be),
      WordsBytes(v.scale, be));
  }

  method WriteControllers(writer: NativeWriter, v: Node)
    modifies writer`data
    ensures writer.data == old(writer.data) + ControllersBytes(v, writer.bigEndian)
  {
    writer.WriteInt32(v.positionControllerId);
    writer.WriteInt32(v.rotationControllerId);
    writer.WriteInt32(v.scaleControllerId);
  }
}
