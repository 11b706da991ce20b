/** The fixed-size structs of the WiiU reader: PhysicsGeometry, its
    CompiledBone, Rgba32 and CompiledIntFace. All of them are read in the
    byte order the reader is set to; only Rgba32 can be written back. */
module WiiUStructs {
  import opened Outcomes
  import opened Binary
  import opened Records
  import Bones

  // ---------------------------------------------------------------------
  // PhysicsGeometry

  /** The only size PhysicsGeometry.ReadFrom accepts. */
  const GeometrySize: nat := 104

  /** The bit patterns of a Vector3 and of a row-major Matrix3x3. */
  type Vec3Bits = s: seq<uint32> | |s| == 3 witness [0, 0, 0]
  type Mat3Bits = s: seq<uint32> | |s| == 9 witness [0, 0, 0, 0, 0, 0, 0, 0, 0]

  /** A physics geometry record; its floats are kept as their bit patterns.
      It is a struct in the source, held by value in the bone's array, so it
      is a value here. */
  datatype PhysicsGeometry = PhysicsGeometry(
    physicsGeom: uint32, flags: uint32,
    min: Vec3Bits, max: Vec3Bits,
    springAngle: Vec3Bits, springTension: Vec3Bits, damping: Vec3Bits,
    framemtx: Mat3Bits)

  /** The value of a freshly allocated array element: every field zero. */
  const EmptyGeometry: PhysicsGeometry :=
    PhysicsGeometry(0, 0, [0, 0, 0], [0, 0, 0], [0, 0, 0], [0, 0, 0], [0, 0, 0], [0, 0, 0, 0, 0, 0, 0, 0, 0])

  /** ReadFrom at p: any size but 104 is refused before anything is read;
      then the two words, the five vectors and the matrix. The result
      carries the position after the record. */
  function GeometryRead(data: seq<byte>, p: nat, be: bool, expectedSize: int): (r: Result<(PhysicsGeometry, nat)>)
    ensures expectedSize != GeometrySize ==> r == Failure(NotSupported)
    ensures r.Success? ==> r.value.1 == p + GeometrySize <= |data|
  {
    if expectedSize != GeometrySize then Failure(NotSupported)
    else
      var physicsGeom :- U32At(data, p, be);
      var flags :- U32At(data, p + 4, be);
      var bounds :- BoundsAt(data, p + 8, be);
      var springs :- SpringsAt(data, p + 32, be);
      var framemtx :- WordsAt(data, p + 68, 9, be);
      Success((PhysicsGeometry(physicsGeom, flags, bounds.0, bounds.1, springs.0, springs.1, springs.2, framemtx),
               p + GeometrySize))
  }

  /** Min and Max. */
  function BoundsAt(data: seq<byte>, q: nat, be: bool): (r: Result<(Vec3Bits, Vec3Bits)>)
  {
    var min :- WordsAt(data, q, 3, be);
    var max :- WordsAt(data, q + 12, 3, be);
    Success((min, max))
  }

  /** SpringAngle, SpringTension and Damping. */
  function SpringsAt(data: seq<byte>, q: nat, be: bool): (r: Result<(Vec3Bits, Vec3Bits, Vec3Bits)>)
  {
    var angle :- WordsAt(data, q, 3, be);
    var tension :- WordsAt(data, q + 12, 3, be);
    var damping :- WordsAt(data, q + 24, 3, be);
    Success((angle, tension, damping))
  }

  /** The 104 bytes ReadFrom consumes for a geometry, in the byte order be. */
  function GeometryBytes(g: PhysicsGeometry, be: bool): (r: seq<byte>)
    ensures |r| == GeometrySize
  {
    U32Bytes(g.physicsGeom, be) + U32Bytes(g.flags, be) + BoundsBytes(g, be) + SpringsBytes(g, be)
      + WordsBytes(g.framemtx, be)
  }

  function BoundsBytes(g: PhysicsGeometry, be: bool): (r: seq<byte>)
    ensures |r| == 24
  {
    WordsBytes(g.min, be) + WordsBytes(g.max, be)
  }

  function SpringsBytes(g: PhysicsGeometry, be: bool): (r: seq<byte>)
    ensures |r| == 36
  {
    WordsBytes(g.springAngle, be) + WordsBytes(g.springTension, be) + WordsBytes(g.damping, be)
  }

  /** PhysicsGeometry as a record codec, for the bone that holds two. */
  const GeometryCodec: RecordCodec<PhysicsGeometry> :=
    RecordCodec((data, p, be, hint) => GeometryRead(data, p, be, hint), (g, be) => GeometryBytes(g, be),
                g => GeometrySize)

  lemma {:induction false} BoundsRoundTrip(g: PhysicsGeometry, be: bool, data: seq<byte>, q: nat)
    requires At(data, q, BoundsBytes(g, be))
    ensures BoundsAt(data, q, be) == Success((g.min, g.max))
  {
    AtSplit(data, q, WordsBytes(g.min, be), WordsBytes(g.max, be));
    WordsRoundTrip(g.min, be, data, q);
    WordsRoundTrip(g.max, be, data, q + 12);
  }

  lemma {:induction false} SpringsRoundTrip(g: PhysicsGeometry, be: bool, data: seq<byte>, q: nat)
    requires At(data, q, SpringsBytes(g, be))
    ensures SpringsAt(data, q, be) == Success((g.springAngle, g.springTension, g.damping))
  {
    AtSplit3(data, q, WordsBytes(g.springAngle, be), WordsBytes(g.springTension, be), WordsBytes(g.damping, be));
    WordsRoundTrip(g.springAngle, be, data, q);
    WordsRoundTrip(g.springTension, be, data, q + 12);
    WordsRoundTrip(g.damping, be, data, q + 24);
  }

  /** A geometry laid out in the byte order it is read in reads back as
      itself, and the read ends 104 bytes on. */
  lemma {:induction false} GeometryRoundTrip(g: PhysicsGeometry, be: bool, data: seq<byte>, p: nat)
    requires At(data, p, GeometryBytes(g, be))
    ensures GeometryRead(data, p, be, GeometrySize) == Success((g, p + GeometrySize))
  {
    AtSplit5(data, p, U32Bytes(g.physicsGeom, be), U32Bytes(g.flags, be), BoundsBytes(g, be), SpringsBytes(g, be),
      WordsBytes(g.framemtx, be));
    WordRoundTrip(g.physicsGeom, be, data, p);
    WordRoundTrip(g.flags, be, data, p + 4);
    BoundsRoundTrip(g, be, data, p + 8);
    SpringsRoundTrip(g, be, data, p + 32);
    WordsRoundTrip(g.framemtx, be, data, p + 68);
  }

  /** The geometry codec reads back every geometry it lays out, at any
      position and in either byte order. */
  lemma GeometrySound()
    ensures Sound(GeometryCodec, GeometrySize)
  {
    forall data, p, e, be | At(data, p, GeometryCodec.write(e, be))
      ensures GeometryCodec.read(data, p, be, GeometrySize) == Success((e, p + |GeometryCodec.write(e, be)|))
    {
      assert GeometryCodec.write(e, be) == GeometryBytes(e, be);
      GeometryRoundTrip(e, be, data, p);
      assert GeometryCodec.read(data, p, be, GeometrySize) == GeometryRead(data, p, be, GeometrySize);
    }
  }

  /** PhysicsGeometry.ReadFrom, as the value it reads. */
  method ReadGeometry(reader: NativeReader, expectedSize: int) returns (r: Result<PhysicsGeometry>)
    modifies reader`pos
    ensures var x := GeometryRead(reader.data, old(reader.pos), reader.bigEndian, expectedSize);
      if x.Success? then r == Success(x.value.0) && reader.pos == x.value.1 else r == Failure(x.error)
  {
    if expectedSize != GeometrySize {
      return Failure(NotSupported);
    }
    var physicsGeom :- ReadU32At(reader);
    var flags :- ReadU32At(reader);
    var bounds :- ReadBounds(reader);
    var springs :- ReadSprings(reader);
    var framemtx :- ReadWords(reader, 9);
    r := Success(PhysicsGeometry(physicsGeom, flags, bounds.0, bounds.1, springs.0, springs.1, springs.2, framemtx));
  }

  method ReadBounds(reader: NativeReader) returns (r: Result<(Vec3Bits, Vec3Bits)>)
    modifies reader`pos
    ensures r == BoundsAt(reader.data, old(reader.pos), reader.bigEndian)
    ensures r.Success? ==> reader.pos == old(reader.pos) + 24
  {
    var min :- ReadWords(reader, 3);
    var max :- ReadWords(reader, 3);
    r := Success((min, max));
  }

  method ReadSprings(reader: NativeReader) returns (r: Result<(Vec3Bits, Vec3Bits, Vec3Bits)>)
    modifies reader`pos
    ensures r == SpringsAt(reader.data, old(reader.pos), reader.bigEndian)
    ensures r.Success? ==> reader.pos == old(reader.pos) + 36
  {
    var angle :- ReadWords(reader, 3);
    var tension :- ReadWords(reader, 3);
    var damping :- ReadWords(reader, 3);
    r := Success((angle, tension, damping));
  }

  /** PhysicsGeometry.WriteTo: not implemented; nothing is written. */
  method WriteGeometry(writer: NativeWriter, g: PhysicsGeometry, useBigEndian: bool) returns (r: Status)
    ensures r == Failure(NotImplemented)
  {
    r := Failure(NotImplemented);
  }

  // ---------------------------------------------------------------------
  // CompiledBone

  /** A successful WiiU bone read consumes exactly 584 bytes: 4, two
      geometries of 104, and 372. */
  lemma {:induction false} BoneConsumesItsSize(data: seq<byte>, p: nat, be: bool)
    requires Bones.BoneAt(GeometryCodec, data, p, Bones.BoneSize, be).Success?
    ensures Bones.BoneAt(GeometryCodec, data, p, Bones.BoneSize, be).value.1 == p + Bones.BoneSize <= |data|
  {
    var live := GeometryRead(data, p + 4, be, GeometrySize);
    var dead := GeometryRead(data, live.value.1, be, GeometrySize);
    var rest := Bones.RestAt(data, dead.value.1, be);
    RestEnds(data, dead.value.1, be);
  }

  lemma {:induction false} RestEnds(data: seq<byte>, q: nat, be: bool)
    requires Bones.RestAt(data, q, be).Success?
    ensures q + 372 <= |data|
  {
  }

  /** A 584-byte bone laid out with two geometries reads back as itself. */
  lemma {:induction false} BoneReadsLayout(b: Bones.Bone<PhysicsGeometry>, be: bool, data: seq<byte>, p: nat)
    requires Bones.WellFormed(b) && At(data, p, Bones.BoneBytes(GeometryCodec, b, be))
    ensures Bones.BoneAt(GeometryCodec, data, p, Bones.BoneSize, be) == Success((b, p + Bones.BoneSize))
  {
    GeometrySound();
    Bones.BoneRoundTrip(GeometryCodec, b, be, data, p);
  }

  /** The WiiU copy of CompiledBone: the two physics records live in an
      array the read allocates. */
  class CompiledBone {
    var controllerId: uint32
    var physicsGeometry: array?<PhysicsGeometry>
    var mass: uint32
    var local: seq<uint32>
    var world: seq<uint32>
    var name: seq<byte>
    var limbId: uint32
    var parentOffset: int32
    var childOffset: int32
    var childCount: int32

    /** The default struct: no physics array yet, every field zero. */
    constructor ()
      ensures physicsGeometry == null && name == []
    {
      controllerId := 0;
      physicsGeometry := null;
      mass, local, world, name := 0, [], [], [];
      limbId, parentOffset, childOffset, childCount := 0, 0, 0, 0;
    }

    predicate HasPhysics()
      reads this
    {
      physicsGeometry != null && physicsGeometry.Length == 2
    }

    function Value(): Bones.Bone<PhysicsGeometry>
      requires HasPhysics()
      reads this, physicsGeometry
    {
      Bones.Bone(controllerId, physicsGeometry[0], physicsGeometry[1], mass, local, world, name,
                 limbId, parentOffset, childCount, childOffset)
    }

    /** ReadFrom: the bone in the reader's current order, its physics read
        into a new two-element array. */
    method ReadFrom(reader: NativeReader, expectedSize: int) returns (r: Status)
      modifies this, reader`pos
      ensures var x := Bones.BoneAt(GeometryCodec, reader.data, old(reader.pos), expectedSize, reader.bigEndian);
        if x.Success? then r.Success? && HasPhysics() && fresh(physicsGeometry) && Value() == x.value.0
          && reader.pos == x.value.1
        else r == Failure(x.error)
    {
      var parts :- ReadParts(reader, expectedSize);
      controllerId, physicsGeometry := parts.0, parts.1;
      SetRest(parts.2);
      r := Done;
    }

    method SetRest(rest: Bones.Rest)
      modifies this`mass, this`local, this`world, this`name, this`limbId, this`parentOffset, this`childCount,
        this`childOffset
      ensures mass == rest.mass && local == rest.local && world == rest.world && name == rest.name
      ensures limbId == rest.limbId && parentOffset == rest.parentOffset && childCount == rest.childCount
      ensures childOffset == rest.childOffset
    {
      mass, local, world, name := rest.mass, rest.local, rest.world, rest.name;
      limbId, parentOffset, childCount, childOffset := rest.limbId, rest.parentOffset, rest.childCount, rest.childOffset;
    }

    /** WriteTo: not implemented; nothing is written. */
    method WriteTo(writer: NativeWriter, useBigEndian: bool) returns (r: Status)
      ensures r == Failure(NotImplemented)
    {
      r := Failure(NotImplemented);
    }
  }

  /** The steps of the WiiU CompiledBone.ReadFrom: the size check, the
      controller id, the physics array and the rest. */
  method ReadParts(reader: NativeReader, expectedSize: int) returns (r: Result<(uint32, array<PhysicsGeometry>, Bones.Rest)>)
    modifies reader`pos
    ensures var x := Bones.BoneAt(GeometryCodec, reader.data, old(reader.pos), expectedSize, reader.bigEndian);
      if x.Success? then r.Success? && fresh(r.value.1) && r.value.1.Length == 2 && reader.pos == x.value.1
        && Bones.Assemble(r.value.0, r.value.1[0], r.value.1[1], r.value.2) == x.value.0
      else r == Failure(x.error)
  {
    if expectedSize != Bones.BoneSize {
      return Failure(NotSupported);
    }
    var id :- ReadU32At(reader);
    var geometry := ReadPhysics(reader);
    if geometry.Failure? {
      return Failure(geometry.error);
    }
    var rest :- Bones.ReadRest(reader);
    r := Success((id, geometry.value, rest));
  }

  /** The two physics records of a bone, read into a new array. */
  method ReadPhysics(reader: NativeReader) returns (r: Result<array<PhysicsGeometry>>)
    modifies reader`pos
    ensures var live := GeometryRead(reader.data, old(reader.pos), reader.bigEndian, GeometrySize);
      var dead := if live.Success? then GeometryRead(reader.data, live.value.1, reader.bigEndian, GeometrySize)
                  else live;
      if dead.Success? then r.Success? && fresh(r.value) && r.value.Length == 2 && r.value[0] == live.value.0
        && r.value[1] == dead.value.0 && reader.pos == dead.value.1
      else r == Failure(dead.error)
  {
    var geometry := new PhysicsGeometry[2](_ => EmptyGeometry);
    var live :- ReadGeometry(reader, GeometrySize);
    geometry[0] := live;
    var dead :- ReadGeometry(reader, GeometrySize);
    geometry[1] := dead;
    r := Success(geometry);
  }

  // ---------------------------------------------------------------------
  // Rgba32

  /** ReadFrom at p: any size but 4 is an error; then R, G, B and A, one
      byte each. */
  function ColorAt(data: seq<byte>, p: nat, expectedSize: int): (r: Result<seq<byte>>)
    ensures r.Success? ==> |r.value| == 4
  {
    if expectedSize != 4 then Failure(BadExpectedSize)
    else
      var r :- ByteAt(data, p);
      var g :- ByteAt(data, p + 1);
      var b :- ByteAt(data, p + 2);
      var a :- ByteAt(data, p + 3);
      Success([r, g, b, a])
  }

  /** A read succeeds exactly when there are four bytes, and gives those
      bytes, so writing what was read reproduces the input. */
  lemma {:induction false} ColorReadsBytes(data: seq<byte>, p: nat)
    ensures ColorAt(data, p, 4).Success? <==> p + 4 <= |data|
    ensures ColorAt(data, p, 4).Success? ==> ColorAt(data, p, 4).value == data[p..p + 4]
  {
    if p + 4 <= |data| {
      assert ColorAt(data, p, 4).value == [data[p], data[p + 1], data[p + 2], data[p + 3]];
    }
  }

  /** The Value overlay of a color read is the little-endian uint32 at the
      same place. */
  lemma {:induction false} ColorValueIsWord(data: seq<byte>, p: nat)
    requires ColorAt(data, p, 4).Success?
    ensures U32At(data, p, false) == Success(U32Of(ColorAt(data, p, 4).value, false))
  {
    ColorReadsBytes(data, p);
  }

  /** Rgba32: four bytes, overlaid by a uint32 Value whose lowest byte is R
      (the layout of the struct on a little-endian machine). */
  class Rgba32 {
    var r: byte
    var g: byte
    var b: byte
    var a: byte

    constructor ()
      ensures r == 0 && g == 0 && b == 0 && a == 0
    {
      r, g, b, a := 0, 0, 0, 0;
    }

    function Bytes(): seq<byte>
      reads this
    {
      [r, g, b, a]
    }

    /** Value read through the overlay. */
    function Value(): uint32
      reads this
    {
      U32Of(Bytes(), false)
    }

    /** Value assigned through the overlay: the four bytes change to its
        little-endian bytes, and it reads back. */
    method SetValue(v: uint32)
      modifies this
      ensures Bytes() == U32Bytes(v, false) && Value() == v
    {
      var bs := U32Bytes(v, false);
      r, g, b, a := bs[0], bs[1], bs[2], bs[3];
      U32RoundTrip(v, false);
    }

    method ReadFrom(reader: NativeReader, expectedSize: int) returns (res: Status)
      modifies this, reader`pos
      ensures ColorAt(reader.data, old(reader.pos), expectedSize)
        == if res.Success? then Success(Bytes()) else Failure(res.error)
      ensures res.Success? ==> reader.pos == old(reader.pos) + 4
    {
      if expectedSize != 4 {
        return Failure(BadExpectedSize);
      }
      var r' :- ReadByteAt(reader);
      var g' :- ReadByteAt(reader);
      var b' :- ReadByteAt(reader);
      var a' :- ReadByteAt(reader);
      r, g, b, a := r', g', b', a';
      res := Done;
    }

    /** WriteTo: R, G, B, A in that order, whatever the byte order. */
    method WriteTo(writer: NativeWriter, useBigEndian: bool)
      modifies writer`data
      ensures writer.data == old(writer.data) + Bytes()
    {
      writer.WriteByte(r);
      writer.WriteByte(g);
      writer.WriteByte(b);
      writer.WriteByte(a);
    }
  }

  // ---------------------------------------------------------------------
  // CompiledIntFace

  /** ReadFrom at p: any size but 6 is an error; then three uint16 vertex
      indices in the byte order be. */
  function FaceAt(data: seq<byte>, p: nat, expectedSize: int, be: bool): (r: Result<seq<uint16>>)
    ensures r.Success? ==> |r.value| == 3 && p + 6 <= |data|
  {
    if expectedSize != 6 then Failure(BadExpectedSize)
    else
      var f0 :- U16At(data, p, be);
      var f1 :- U16At(data, p + 2, be);
      var f2 :- U16At(data, p + 4, be);
      Success([f0, f1, f2])
  }

  /** The six bytes of a face in the byte order be. */
  function FaceBytes(f: seq<uint16>, be: bool): (r: seq<byte>)
    requires |f| == 3
    ensures |r| == 6
  {
    U16Bytes(f[0], be) + U16Bytes(f[1], be) + U16Bytes(f[2], be)
  }

  /** A face laid out in the order it is read in reads back as itself. */
  lemma {:induction false} FaceRoundTrip(f: seq<uint16>, be: bool, data: seq<byte>, p: nat)
    requires |f| == 3 && At(data, p, FaceBytes(f, be))
    ensures FaceAt(data, p, 6, be) == Success(f)
  {
    AtSplit3(data, p, U16Bytes(f[0], be), U16Bytes(f[1], be), U16Bytes(f[2], be));
    AtSlice(data, p, U16Bytes(f[0], be));
    AtSlice(data, p + 2, U16Bytes(f[1], be));
    AtSlice(data, p + 4, U16Bytes(f[2], be));
    U16RoundTrip(f[0], be);
    U16RoundTrip(f[1], be);
    U16RoundTrip(f[2], be);
    assert [f[0], f[1], f[2]] == f;
  }

  /** CompiledIntFace: three vertex indices, overlaid by the array Faces. */
  class CompiledIntFace {
    var face0: uint16
    var face1: uint16
    var face2: uint16

    constructor ()
      ensures face0 == 0 && face1 == 0 && face2 == 0
    {
      face0, face1, face2 := 0, 0, 0;
    }

    /** Faces read through the overlay. */
    function Faces(): (f: seq<uint16>)
      reads this
    {
      [face0, face1, face2]
    }

    /** Faces[k] assigned through the overlay changes Face_k and nothing
        else. */
    method SetFace(k: nat, v: uint16)
      requires k < 3
      modifies this
      ensures Faces() == old(Faces())[k := v]
    {
      if k == 0 {
        face0 := v;
      } else if k == 1 {
        face1 := v;
      } else {
        face2 := v;
      }
    }

    method ReadFrom(reader: NativeReader, expectedSize: int) returns (r: Status)
      modifies this, reader`pos
      ensures FaceAt(reader.data, old(reader.pos), expectedSize, reader.bigEndian)
        == if r.Success? then Success(Faces()) else Failure(r.error)
      ensures r.Success? ==> reader.pos == old(reader.pos) + 6
    {
      if expectedSize != 6 {
        return Failure(BadExpectedSize);
      }
      var f0 :- ReadU16At(reader);
      var f1 :- ReadU16At(reader);
      var f2 :- ReadU16At(reader);
      face0, face1, face2 := f0, f1, f2;
      r := Done;
    }

    /** WriteTo: not implemented; nothing is written. */
    method WriteTo(writer: NativeWriter, useBigEndian: bool) returns (r: Status)
      ensures r == Failure(NotImplemented)
    {
      r := Failure(NotImplemented);
    }
  }
}
