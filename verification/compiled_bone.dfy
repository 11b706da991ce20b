/** CompiledBone, the 584-byte record of a compiled skeleton, in the layout
    both the SynergyLib and the WiiU copy read:

      +0   controller id (uint32)
      +4   physics of the live body, 104 bytes
      +108 physics of the dead body, 104 bytes
      +212 mass (float)
      +216 local and world transforms, 3x4 floats each
      +312 name, 256 bytes
      +568 limb id (uint32), parent offset, child count, child offset (int32)

    The physics record is read by its own ReadFrom with size 104; its codec
    is a parameter here. The SynergyLib copy, which can also write itself,
    is the class below; the WiiU copy is in the WiiU structs module. */
module Bones {
  import opened Outcomes
  import opened Binary
  import opened Records

  /** The size of a bone, the only size ReadFrom accepts. */
  const BoneSize: nat := 584
  /** The size passed to each physics record's ReadFrom. */
  const PhysicsSize: nat := 104

  /** The fields of a bone. The mass and the two transforms (3x4, row by
      row) are kept as the bit patterns of their floats, the name as its
      bytes. */
  datatype Bone<P> = Bone(
    controllerId: uint32, physicsLive: P, physicsDead: P,
    mass: uint32, local: seq<uint32>, world: seq<uint32>, name: seq<byte>,
    limbId: uint32, parentOffset: int32, childCount: int32, childOffset: int32)

  predicate WellFormed<P>(b: Bone<P>)
  {
    |b.local| == 12 && |b.world| == 12 && |b.name| == 256
  }

  /** The part after the two physics records. */
  datatype Rest = Rest(mass: uint32, local: seq<uint32>, world: seq<uint32>, name: seq<byte>,
                       limbId: uint32, parentOffset: int32, childCount: int32, childOffset: int32)

  /** ReadFrom at p in the reader's order be: any size but 584 is refused
      before anything is read; then the fields in order. The bone does not
      check where it ends; the position after it is part of the result. */
  function BoneAt<P>(c: RecordCodec<P>, data: seq<byte>, p: nat, expectedSize: int, be: bool): (r: Result<(Bone<P>, nat)>)
    ensures expectedSize != BoneSize ==> r == Failure(NotSupported)
  {
    if expectedSize != BoneSize then Failure(NotSupported)
    else
      var controllerId :- U32At(data, p, be);
      BodiesAt(c, data, p + 4, be, controllerId)
  }

  /** What follows the controller id: the two physics records, then the rest. */
  function BodiesAt<P>(c: RecordCodec<P>, data: seq<byte>, q: nat, be: bool, controllerId: uint32): Result<(Bone<P>, nat)>
  {
    var live :- c.read(data, q, be, PhysicsSize);
    var dead :- c.read(data, live.1, be, PhysicsSize);
    var rest :- RestAt(data, dead.1, be);
    Success((Assemble(controllerId, live.0, dead.0, rest), dead.1 + 372))
  }

  /** Everything of a bone after its physics records. */
  function RestOf<P>(b: Bone<P>): Rest
  {
    Rest(b.mass, b.local, b.world, b.name, b.limbId, b.parentOffset, b.childCount, b.childOffset)
  }

  function Assemble<P>(controllerId: uint32, live: P, dead: P, rest: Rest): Bone<P>
  {
    Bone(controllerId, live, dead, rest.mass, rest.local, rest.world, rest.name,
         rest.limbId, rest.parentOffset, rest.childCount, rest.childOffset)
  }

  function RestAt(data: seq<byte>, q: nat, be: bool): Result<Rest>
  {
    var floats :- FloatsAt(data, q, be);
    var name :- BytesAt(data, q + 100, 256);
    var links :- LinksAt(data, q + 356, be);
    Success(Rest(floats.0, floats.1, floats.2, name, links.0, links.1, links.2, links.3))
  }

  /** The mass and the two 3x4 transforms, as bit patterns. */
  function FloatsAt(data: seq<byte>, q: nat, be: bool): Result<(uint32, seq<uint32>, seq<uint32>)>
  {
    var mass :- U32At(data, q, be);
    var local :- WordsAt(data, q + 4, 12, be);
    var world :- WordsAt(data, q + 52, 12, be);
    Success((mass, local, world))
  }

  /** Limb id, parent offset, child count, child offset: ChildCount is read
      before ChildOffset. */
  function LinksAt(data: seq<byte>, q: nat, be: bool): Result<(uint32, int32, int32, int32)>
  {
    var limbId :- U32At(data, q, be);
    var parentOffset :- I32At(data, q + 4, be);
    var childCount :- I32At(data, q + 8, be);
    var childOffset :- I32At(data, q + 12, be);
    Success((limbId, parentOffset, childCount, childOffset))
  }

  /** WriteTo in the order asked for: the same fields in the same order,
      the name cut or padded to 256 bytes. */
  function BoneBytes<P>(c: RecordCodec<P>, b: Bone<P>, be: bool): (r: seq<byte>)
    ensures |r| == 4 + |c.write(b.physicsLive, be)| + |c.write(b.physicsDead, be)| + |RestBytes(b, be)|
  {
    U32Bytes(b.controllerId, be) + c.write(b.physicsLive, be) + c.write(b.physicsDead, be) + RestBytes(b, be)
  }

  function RestBytes<P>(b: Bone<P>, be: bool): (r: seq<byte>)
    ensures |r| == 276 + 4 * (|b.local| + |b.world|)
  {
    FloatBytes(b, be) + FixedField(b.name, 256) + LinksBytes(b, be)
  }

  /** The mass and the two transforms. */
  function FloatBytes<P>(b: Bone<P>, be: bool): (r: seq<byte>)
    ensures |r| == 4 + 4 * (|b.local| + |b.world|)
  {
    U32Bytes(b.mass, be) + WordsBytes(b.local, be) + WordsBytes(b.world, be)
  }

  function LinksBytes<P>(b: Bone<P>, be: bool): (r: seq<byte>)
    ensures |r| == 16
  {
    U32Bytes(b.limbId, be) + I32Bytes(b.parentOffset, be) + I32Bytes(b.childCount, be) + I32Bytes(b.childOffset, be)
  }

  lemma {:induction false} LinksRoundTrip<P>(b: Bone<P>, be: bool, data: seq<byte>, q: nat)
    requires At(data, q, LinksBytes(b, be))
    ensures LinksAt(data, q, be) == Success((b.limbId, b.parentOffset, b.childCount, b.childOffset))
  {
    var a0, a1, a2, a3 := U32Bytes(b.limbId, be), I32Bytes(b.parentOffset, be), I32Bytes(b.childCount, be),
      I32Bytes(b.childOffset, be);
    AtSplit4(data, q, a0, a1, a2, a3);
    AtSlice(data, q, a0);
    AtSlice(data, q + 4, a1);
    AtSlice(data, q + 8, a2);
    AtSlice(data, q + 12, a3);
    U32RoundTrip(b.limbId, be);
    I32RoundTrip(b.parentOffset, be);
    I32RoundTrip(b.childCount, be);
    I32RoundTrip(b.childOffset, be);
  }

  lemma {:induction false} RestRoundTrip<P>(b: Bone<P>, be: bool, data: seq<byte>, q: nat)
    requires WellFormed(b) && At(data, q, RestBytes(b, be))
    ensures RestAt(data, q, be) == Success(RestOf(b))
  {
    var name := FixedField(b.name, 256);
    AtSplit3(data, q, FloatBytes(b, be), name, LinksBytes(b, be));
    FloatsRoundTrip(b, be, data, q);
    AtSlice(data, q + 100, name);
    LinksRoundTrip(b, be, data, q + 356);
  }

  lemma {:induction false} FloatsRoundTrip<P>(b: Bone<P>, be: bool, data: seq<byte>, q: nat)
    requires |b.local| == 12 && |b.world| == 12 && At(data, q, FloatBytes(b, be))
    ensures FloatsAt(data, q, be) == Success((b.mass, b.local, b.world))
  {
    AtSplit3(data, q, U32Bytes(b.mass, be), WordsBytes(b.local, be), WordsBytes(b.world, be));
    WordRoundTrip(b.mass, be, data, q);
    WordsRoundTrip(b.local, be, data, q + 4);
    WordsRoundTrip(b.world, be, data, q + 52);
  }

  /** A written bone reads back, in the order it was written in, as the
      same bone, and the read ends right after its bytes. */
  lemma {:induction false} BoneRoundTrip<P(!new)>(c: RecordCodec<P>, b: Bone<P>, be: bool, data: seq<byte>, p: nat)
    requires Sound(c, PhysicsSize) && WellFormed(b)
    requires At(data, p, BoneBytes(c, b, be))
    ensures BoneAt(c, data, p, BoneSize, be) == Success((b, p + |BoneBytes(c, b, be)|))
  {
    var q1 := p + 4 + |c.write(b.physicsLive, be)|;
    var q2 := q1 + |c.write(b.physicsDead, be)|;
    PiecesRoundTrip(c, b, be, data, p, q1, q2);
    AssembleRoundTrip(c, b, be, data, p, q1, q2);
  }

  /** Pieces that read back make the bone read back. */
  lemma {:induction false} AssembleRoundTrip<P(!new)>(c: RecordCodec<P>, b: Bone<P>, be: bool, data: seq<byte>,
                                                      p: nat, q1: nat, q2: nat)
    requires Sound(c, PhysicsSize)
    requires q1 == p + 4 + |c.write(b.physicsLive, be)| && q2 == q1 + |c.write(b.physicsDead, be)|
    requires U32At(data, p, be) == Success(b.controllerId)
    requires At(data, p + 4, c.write(b.physicsLive, be)) && At(data, q1, c.write(b.physicsDead, be))
    requires RestAt(data, q2, be) == Success(RestOf(b))
    requires q2 + 372 == p + |BoneBytes(c, b, be)|
    ensures BoneAt(c, data, p, BoneSize, be) == Success((b, p + |BoneBytes(c, b, be)|))
  {
    PhysicsReadBack(c, b, be, data, p + 4, q1, q2);
    BodiesReadBack(c, b, data, p + 4, q1, q2, be);
    BoneFromBodies(c, b.controllerId, data, p, q2 + 372, b, be);
  }

  /** The id and the rest of a written bone read back, and its physics
      records lie where the reader looks for them. */
  lemma {:induction false} PiecesRoundTrip<P>(c: RecordCodec<P>, b: Bone<P>, be: bool, data: seq<byte>,
                                              p: nat, q1: nat, q2: nat)
    requires WellFormed(b) && At(data, p, BoneBytes(c, b, be))
    requires q1 == p + 4 + |c.write(b.physicsLive, be)| && q2 == q1 + |c.write(b.physicsDead, be)|
    ensures U32At(data, p, be) == Success(b.controllerId)
    ensures At(data, p + 4, c.write(b.physicsLive, be)) && At(data, q1, c.write(b.physicsDead, be))
    ensures RestAt(data, q2, be) == Success(RestOf(b))
    ensures q2 + 372 == p + |BoneBytes(c, b, be)|
  {
    BoneLayout(c, b, be, data, p);
    RestRoundTrip(b, be, data, q2);
  }

  /** Where each piece of a written bone lies. */
  lemma {:induction false} BoneLayout<P>(c: RecordCodec<P>, b: Bone<P>, be: bool, data: seq<byte>, p: nat)
    requires WellFormed(b) && At(data, p, BoneBytes(c, b, be))
    ensures var n1, n2 := |c.write(b.physicsLive, be)|, |c.write(b.physicsDead, be)|;
      U32At(data, p, be) == Success(b.controllerId) && At(data, p + 4, c.write(b.physicsLive, be))
      && At(data, p + 4 + n1, c.write(b.physicsDead, be)) && At(data, p + 4 + n1 + n2, RestBytes(b, be))
      && |BoneBytes(c, b, be)| == 4 + n1 + n2 + 372
  {
    var a0, a1, a2, a3 := U32Bytes(b.controllerId, be), c.write(b.physicsLive, be), c.write(b.physicsDead, be),
      RestBytes(b, be);
    AtSplit4(data, p, a0, a1, a2, a3);
    AtSlice(data, p, a0);
    U32RoundTrip(b.controllerId, be);
  }

  /** The two physics records read back when the codec is sound. */
  lemma {:induction false} PhysicsReadBack<P(!new)>(c: RecordCodec<P>, b: Bone<P>, be: bool, data: seq<byte>,
                                                    q: nat, q1: nat, q2: nat)
    requires Sound(c, PhysicsSize)
    requires q1 == q + |c.write(b.physicsLive, be)| && q2 == q1 + |c.write(b.physicsDead, be)|
    requires At(data, q, c.write(b.physicsLive, be)) && At(data, q1, c.write(b.physicsDead, be))
    ensures c.read(data, q, be, PhysicsSize) == Success((b.physicsLive, q1))
    ensures c.read(data, q1, be, PhysicsSize) == Success((b.physicsDead, q2))
  {
    ReadSound(c, PhysicsSize, b.physicsLive, be, data, q);
    ReadSound(c, PhysicsSize, b.physicsDead, be, data, q1);
  }

  /** The two physics records and the rest, read once each is known to
      read back. */
  lemma {:induction false} BodiesReadBack<P>(c: RecordCodec<P>, b: Bone<P>, data: seq<byte>, q: nat, q1: nat, q2: nat, be: bool)
    requires RestAt(data, q2, be) == Success(RestOf(b))
    requires c.read(data, q, be, PhysicsSize) == Success((b.physicsLive, q1))
    requires c.read(data, q1, be, PhysicsSize) == Success((b.physicsDead, q2))
    ensures BodiesAt(c, data, q, be, b.controllerId) == Success((b, q2 + 372))
  {
    assert Assemble(b.controllerId, b.physicsLive, b.physicsDead, RestOf(b)) == b;
  }

  lemma {:induction false} BoneFromBodies<P>(c: RecordCodec<P>, id: uint32, data: seq<byte>, p: nat, e: nat, b: Bone<P>, be: bool)
    requires U32At(data, p, be) == Success(id)
    requires BodiesAt(c, data, p + 4, be, id) == Success((b, e))
    ensures BoneAt(c, data, p, BoneSize, be) == Success((b, e))
  {
  }

  /** A sound codec reads back what it wrote. */
  lemma {:induction false} ReadSound<P(!new)>(c: RecordCodec<P>, hint: int, e: P, be: bool, data: seq<byte>, q: nat)
    requires Sound(c, hint) && At(data, q, c.write(e, be))
    ensures c.read(data, q, be, hint) == Success((e, q + |c.write(e, be)|))
  {
  }

  /** WrittenSize, 584, is the number of bytes WriteTo writes when both
      physics records have their 104 bytes. */
  lemma {:induction false} BoneSizeIsLength<P(!new)>(c: RecordCodec<P>, b: Bone<P>, be: bool)
    requires Sound(c, PhysicsSize) && WellFormed(b)
    requires c.size(b.physicsLive) == PhysicsSize && c.size(b.physicsDead) == PhysicsSize
    ensures |BoneBytes(c, b, be)| == BoneSize
  {
    assert |c.write(b.physicsLive, be)| == PhysicsSize;
    assert |c.write(b.physicsDead, be)| == PhysicsSize;
  }

  /** The steps of ReadFrom. */
  method ReadBone<P>(reader: NativeReader, expectedSize: int, c: RecordCodec<P>) returns (r: Result<Bone<P>>)
    modifies reader`pos
    ensures var x := BoneAt(c, reader.data, old(reader.pos), expectedSize, reader.bigEndian);
      if x.Success? then r == Success(x.value.0) && reader.pos == x.value.1 else r == Failure(x.error)
  {
    if expectedSize != BoneSize {
      return Failure(NotSupported);
    }
    var controllerId :- ReadU32At(reader);
    r := ReadBodies(reader, c, controllerId);
  }

  method ReadBodies<P>(reader: NativeReader, c: RecordCodec<P>, controllerId: uint32) returns (r: Result<Bone<P>>)
    modifies reader`pos
    ensures var x := BodiesAt(c, reader.data, old(reader.pos), reader.bigEndian, controllerId);
      if x.Success? then r == Success(x.value.0) && reader.pos == x.value.1 else r == Failure(x.error)
  {
    var live :- ReadRecord(reader, c, PhysicsSize);
    var dead :- ReadRecord(reader, c, PhysicsSize);
    var rest :- ReadRest(reader);
    r := Success(Assemble(controllerId, live, dead, rest));
  }

  method ReadRest(reader: NativeReader) returns (r: Result<Rest>)
    modifies reader`pos
    ensures r == RestAt(reader.data, old(reader.pos), reader.bigEndian)
    ensures r.Success? ==> reader.pos == old(reader.pos) + 372
  {
    var floats :- ReadFloats(reader);
    var name :- ReadBytesAt(reader, 256);
    var links :- ReadLinks(reader);
    r := Success(Rest(floats.0, floats.1, floats.2, name, links.0, links.1, links.2, links.3));
  }

  method ReadFloats(reader: NativeReader) returns (r: Result<(uint32, seq<uint32>, seq<uint32>)>)
    modifies reader`pos
    ensures r == FloatsAt(reader.data, old(reader.pos), reader.bigEndian)
    ensures r.Success? ==> reader.pos == old(reader.pos) + 100
  {
    var mass :- ReadU32At(reader);
    var local :- ReadWords(reader, 12);
    var world :- ReadWords(reader, 12);
    r := Success((mass, local, world));
  }

  method ReadLinks(reader: NativeReader) returns (r: Result<(uint32, int32, int32, int32)>)
    modifies reader`pos
    ensures r == LinksAt(reader.data, old(reader.pos), reader.bigEndian)
    ensures r.Success? ==> reader.pos == old(reader.pos) + 16
  {
    var limbId :- ReadU32At(reader);
    var parentOffset :- ReadI32At(reader);
    var childCount :- ReadI32At(reader);
    var childOffset :- ReadI32At(reader);
    r := Success((limbId, parentOffset, childCount, childOffset));
  }

  /** The steps of WriteTo inside the byte-order scope. */
  method WriteBone<P>(writer: NativeWriter, c: RecordCodec<P>, b: Bone<P>)
    modifies writer`data
    ensures writer.data == old(writer.data) + BoneBytes(c, b, writer.bigEndian)
  {
    var be := writer.bigEndian;
    writer.WriteUInt32(b.controllerId);
    writer.WriteBytes(c.write(b.physicsLive, be));
    writer.WriteBytes(c.write(b.physicsDead, be));
    WriteRest(writer, b);
    Appended4(old(writer.data), U32Bytes(b.controllerId, be), c.write(b.physicsLive, be), c.write(b.physicsDead, be),
      RestBytes(b, be));
  }

  method WriteRest<P>(writer: NativeWriter, b: Bone<P>)
    modifies writer`data
    ensures writer.data == old(writer.data) + RestBytes(b, writer.bigEndian)
  {
    WriteFloats(writer, b);
    writer.WriteBytes(FixedField(b.name, 256));
    WriteLinks(writer, b);
    Appended3(old(writer.data), FloatBytes(b, writer.bigEndian), FixedField(b.name, 256), LinksBytes(b, writer.bigEndian));
  }

  method WriteFloats<P>(writer: NativeWriter, b: Bone<P>)
    modifies writer`data
    ensures writer.data == old(writer.data) + FloatBytes(b, writer.bigEndian)
  {
    writer.WriteUInt32(b.mass);
    WriteWords(writer, b.local);
    WriteWords(writer, b.world);
    Appended3(old(writer.data), U32Bytes(b.mass, writer.bigEndian), WordsBytes(b.local, writer.bigEndian),
      WordsBytes(b.world, writer.bigEndian));
  }

  method WriteLinks<P>(writer: NativeWriter, b: Bone<P>)
    modifies writer`data
    ensures writer.data == old(writer.data) + LinksBytes(b, writer.bigEndian)
  {
    writer.WriteUInt32(b.limbId);
    writer.WriteInt32(b.parentOffset);
    writer.WriteInt32(b.childCount);
    writer.WriteInt32(b.childOffset);
  }

  /** SynergyLib's CompiledBone; the CompiledBonePhysics codec is not part
      of this model and is passed in. */
  class CompiledBone<P> {
    var controllerId: uint32
    var physicsLive: P
    var physicsDead: P
    var mass: uint32
    var local: seq<uint32>
    var world: seq<uint32>
    var name: seq<byte>
    var limbId: uint32
    var parentOffset: int32
    var childCount: int32
    var childOffset: int32

    constructor (physics: P)
      ensures name == [] && physicsLive == physics && physicsDead == physics
    {
      controllerId := 0;
      physicsLive, physicsDead := physics, physics;
      mass, local, world, name := 0, [0, 0, 0, 0, 0, 0, 0, 0, 0, 0, 0, 0], [0, 0, 0, 0, 0, 0, 0, 0, 0, 0, 0, 0], [];
      limbId, parentOffset, childCount, childOffset := 0, 0, 0, 0;
    }

    function Value(): Bone<P>
      reads this
    {
      Bone(controllerId, physicsLive, physicsDead, mass, local, world, name, limbId, parentOffset, childCount, childOffset)
    }

    /** ReadFrom: the bone in the reader's current order. */
    method ReadFrom(reader: NativeReader, expectedSize: int, c: RecordCodec<P>) returns (r: Status)
      modifies this, reader`pos
      ensures var x := BoneAt(c, reader.data, old(reader.pos), expectedSize, reader.bigEndian);
        if x.Success? then r.Success? && Value() == x.value.0 && reader.pos == x.value.1
        else r == Failure(x.error)
    {
      var b :- ReadBone(reader, expectedSize, c);
      Set(b);
      r := Done;
    }

    method Set(b: Bone<P>)
      modifies this
      ensures Value() == b
    {
      controllerId, physicsLive, physicsDead := b.controllerId, b.physicsLive, b.physicsDead;
      SetRest(b);
    }

    method SetRest(b: Bone<P>)
      modifies this`mass, this`local, this`world, this`name, this`limbId, this`parentOffset, this`childCount,
        this`childOffset
      ensures mass == b.mass && local == b.local && world == b.world && name == b.name
      ensures limbId == b.limbId && parentOffset == b.parentOffset && childCount == b.childCount
      ensures childOffset == b.childOffset
    {
      mass, local, world, name := b.mass, b.local, b.world, b.name;
      limbId, parentOffset, childCount, childOffset := b.limbId, b.parentOffset, b.childCount, b.childOffset;
    }

    /** WriteTo: the bone in the order asked for. */
    method WriteTo(writer: NativeWriter, useBigEndian: bool, c: RecordCodec<P>)
      modifies writer`data, writer`bigEndian
      ensures writer.bigEndian == old(writer.bigEndian)
      ensures writer.data == old(writer.data) + BoneBytes(c, Value(), useBigEndian)
    {
      var saved := writer.bigEndian;
      writer.bigEndian := useBigEndian;
      WriteBone(writer, c, Value());
      writer.bigEndian := saved;
    }

    function WrittenSize(): nat
    {
      BoneSize
    }
  }
}
