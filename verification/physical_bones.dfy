/** The WiiU CompiledPhysicalBonesChunk: a chunk header in the base byte
    order, 32 zero bytes, then 152-byte physical bones in the order the
    header's flag names. How many bones there are is not stored: the read
    starts from the number of whole 152-byte records the chunk has room
    for and raises that bound whenever a bone's index plus its child count
    reaches further. The bone record itself is not part of this model; its
    reader and its child count are passed in. */
module PhysicalBones {
  import opened Outcomes
  import opened Binary
  import opened CryLayout
  import opened Records

  /** The size passed to each bone's ReadFrom, and the divisor of the
      initial count. */
  const BoneRecordSize: nat := 152
  /** The header and the 32 zero bytes before the first bone. */
  const LeadSize: nat := 48

  /** The loop's bound after the bones `done` have been read: the initial
      count raised to each bone's index plus its child count, in C#'s
      wrapping int addition. */
  function Reach<E>(childCount: E -> int32, count: int32, done: seq<E>): int32
  {
    if done == [] then count
    else
      var k := |done| - 1;
      Max(Reach(childCount, count, done[..k]), Wrap(k + childCount(done[k])))
  }

  /** The loop from the bones `done` read so far, at q: it stops as soon as
      their number reaches the bound, and otherwise reads one more bone. */
  function BonesFrom<E>(c: RecordCodec<E>, childCount: E -> int32, data: seq<byte>, q: nat, done: seq<E>,
                        count: int32, be: bool): Result<(seq<E>, nat)>
    decreases 0x8000_0000 - |done|
  {
    if |done| >= Reach(childCount, count, done) then Success((done, q))
    else
      var bone :- c.read(data, q, be, BoneRecordSize);
      BonesFrom(c, childCount, data, bone.1, done + [bone.0], count, be)
  }

  /** The initial count, (expectedEnd - position) / 152 after the lead. */
  function InitialCount(expectedSize: int32): int32
  {
    assert -0x8000_0000 <= TruncDiv(expectedSize - LeadSize, BoneRecordSize) < 0x8000_0000;
    TruncDiv(expectedSize - LeadSize, BoneRecordSize)
  }

  /** ReadFrom at p with the base order baseBe: the header; the 32 zero
      bytes in the header's order; a negative initial count refused by the
      list's EnsureCapacity; the bones; and the check that the chunk ends
      exactly expectedSize bytes after p. */
  function PhysicalBonesOf<E>(c: RecordCodec<E>, childCount: E -> int32, data: seq<byte>, p: nat,
                              expectedSize: int32, baseBe: bool): (r: Result<(ChunkHeader, seq<E>)>)
    ensures r.Success? ==> p + LeadSize <= |data| && r.value.0 == HeaderOf(data[p..p + HeaderSize], baseBe)
    ensures r.Success? ==> AllZero(data[p + HeaderSize..p + LeadSize])
  {
    var header :- HeaderAt(data, p, baseBe);
    var _ :- PadAt(data, p + HeaderSize, 32);
    var bones :- BonesBodyAt(c, childCount, data, p + LeadSize, p + expectedSize, InitialCount(expectedSize),
                             IsBigEndian(header));
    Success((header, bones))
  }

  /** The bones and the end check, once the lead is behind. */
  function BonesBodyAt<E>(c: RecordCodec<E>, childCount: E -> int32, data: seq<byte>, q: nat, end: int,
                          count: int32, be: bool): Result<seq<E>>
  {
    if count < 0 then Failure(ArgumentOutOfRange)
    else
      var bones :- BonesFrom(c, childCount, data, q, [], count, be);
      if bones.1 != end then Failure(PositionMismatch(end, bones.1)) else Success(bones.0)
  }

  /** Every bone's reach counts toward the bound, and so does the initial
      count. */
  lemma {:induction false} ReachCovers<E>(childCount: E -> int32, count: int32, done: seq<E>, k: nat)
    requires k < |done|
    ensures count <= Reach(childCount, count, done)
    ensures Wrap(k + childCount(done[k])) <= Reach(childCount, count, done)
    decreases |done|
  {
    var n := |done| - 1;
    var prev := Reach(childCount, count, done[..n]);
    assert Reach(childCount, count, done) == Max(prev, Wrap(n + childCount(done[n])));
    if k < n {
      ReachCovers(childCount, count, done[..n], k);
      assert done[..n][k] == done[k];
    } else if n > 0 {
      ReachCovers(childCount, count, done[..n], 0);
    }
  }

  /** The bound never shrinks as bones are read. */
  lemma {:induction false} ReachGrows<E>(childCount: E -> int32, count: int32, done: seq<E>, j: nat)
    requires j <= |done|
    ensures count <= Reach(childCount, count, done[..j]) <= Reach(childCount, count, done)
    decreases |done|
  {
    if |done| > 0 {
      var n := |done| - 1;
      assert done[..n] == done[..|done|][..n];
      if j <= n {
        ReachGrows(childCount, count, done[..n], j);
        assert done[..n][..j] == done[..j];
      } else {
        assert done[..j] == done;
        ReachGrows(childCount, count, done[..n], n);
        assert done[..n][..n] == done[..n];
      }
    } else {
      assert done[..j] == done;
    }
  }

  /** How the loop ends: the bones already read stay in front; the loop
      stopped because their number reached the bound; and it went on past
      each earlier bone because the number read then was still below the
      bound then. */
  lemma {:induction false} BonesFromStops<E>(c: RecordCodec<E>, childCount: E -> int32, data: seq<byte>, q: nat,
                                             done: seq<E>, count: int32, be: bool)
    requires BonesFrom(c, childCount, data, q, done, count, be).Success?
    ensures var bones := BonesFrom(c, childCount, data, q, done, count, be).value.0;
      |done| <= |bones| && bones[..|done|] == done && |bones| >= Reach(childCount, count, bones)
      && forall j :: |done| <= j < |bones| ==> j < Reach(childCount, count, bones[..j])
    decreases 0x8000_0000 - |done|
  {
    if |done| < Reach(childCount, count, done) {
      var bone := c.read(data, q, be, BoneRecordSize).value;
      var next := done + [bone.0];
      BonesFromStops(c, childCount, data, bone.1, next, count, be);
      var bones := BonesFrom(c, childCount, data, q, done, count, be).value.0;
      assert bones == BonesFrom(c, childCount, data, bone.1, next, count, be).value.0;
      assert bones[..|done|] == bones[..|next|][..|done|] == done;
      forall j | |done| <= j < |bones|
        ensures j < Reach(childCount, count, bones[..j])
      {
        if j == |done| {
          assert bones[..j] == done;
        }
      }
    }
  }

  /** A chunk that reads holds exactly as many bones as its final bound:
      at least the initial count, every bone's index plus child count
      within the list, and no bone read beyond what the bound asked for. */
  lemma {:induction false} BonesMatchReach<E>(c: RecordCodec<E>, childCount: E -> int32, data: seq<byte>, q: nat,
                                              count: int32, be: bool)
    requires count >= 0 && BonesFrom(c, childCount, data, q, [], count, be).Success?
    ensures var bones := BonesFrom(c, childCount, data, q, [], count, be).value.0;
      |bones| == Reach(childCount, count, bones) && count <= |bones|
      && (forall k :: 0 <= k < |bones| ==> Wrap(k + childCount(bones[k])) <= |bones|)
      && (forall j :: 0 <= j < |bones| ==> j < Reach(childCount, count, bones[..j]))
  {
    var bones := BonesFrom(c, childCount, data, q, [], count, be).value.0;
    BonesFromStops(c, childCount, data, q, [], count, be);
    ReachGrows(childCount, count, bones, |bones|);
    if |bones| > 0 {
      var n := |bones| - 1;
      ReachGrows(childCount, count, bones, n);
      assert n < Reach(childCount, count, bones[..n]);
    } else {
      assert bones[..0] == bones;
    }
    forall k | 0 <= k < |bones|
      ensures Wrap(k + childCount(bones[k])) <= |bones|
    {
      ReachCovers(childCount, count, bones, k);
    }
  }

  /** The bone reader consumes exactly one 152-byte record whenever it
      succeeds. */
  ghost predicate ReadsRecordSize<E>(c: RecordCodec<E>)
  {
    forall data: seq<byte>, q: nat, be: bool :: c.read(data, q, be, BoneRecordSize).Success?
      ==> c.read(data, q, be, BoneRecordSize).value.1 == q + BoneRecordSize
  }

  /** With 152-byte bones, the loop ends 152 bytes past its start for each
      bone it read. */
  lemma {:induction false} BonesFromEnds<E>(c: RecordCodec<E>, childCount: E -> int32, data: seq<byte>, q: nat,
                                            done: seq<E>, count: int32, be: bool)
    requires ReadsRecordSize(c) && BonesFrom(c, childCount, data, q, done, count, be).Success?
    ensures var r := BonesFrom(c, childCount, data, q, done, count, be).value;
      |done| <= |r.0| && r.1 == q + BoneRecordSize * (|r.0| - |done|)
    decreases 0x8000_0000 - |done|
  {
    if |done| < Reach(childCount, count, done) {
      var bone := c.read(data, q, be, BoneRecordSize).value;
      BonesFromEnds(c, childCount, data, bone.1, done + [bone.0], count, be);
    }
  }

  /** With 152-byte bones, a chunk that reads holds exactly the initial
      count of bones and fills its expected size: the raised bound can
      only make such a read fail, never let it take in more bones. */
  lemma {:induction false} FixedBonesFillChunk<E>(c: RecordCodec<E>, childCount: E -> int32, data: seq<byte>, p: nat,
                                                  expectedSize: int32, baseBe: bool)
    requires ReadsRecordSize(c) && PhysicalBonesOf(c, childCount, data, p, expectedSize, baseBe).Success?
    ensures var bones := PhysicalBonesOf(c, childCount, data, p, expectedSize, baseBe).value.1;
      expectedSize == LeadSize + BoneRecordSize * |bones| && |bones| == InitialCount(expectedSize)
      && forall k :: 0 <= k < |bones| ==> Wrap(k + childCount(bones[k])) <= InitialCount(expectedSize)
  {
    var header := HeaderAt(data, p, baseBe).value;
    var be := IsBigEndian(header);
    var count := InitialCount(expectedSize);
    var r := BonesFrom(c, childCount, data, p + LeadSize, [], count, be).value;
    BonesFromEnds(c, childCount, data, p + LeadSize, [], count, be);
    BonesMatchReach(c, childCount, data, p + LeadSize, count, be);
    assert expectedSize - LeadSize == BoneRecordSize * |r.0|;
    assert count == |r.0|;
  }

  /** The bone loop, in the reader's order: the list starts empty and gets
      one bone per turn while the number read is below the bound, which
      each bone may raise. */
  method ReadBones<E>(reader: NativeReader, c: RecordCodec<E>, childCount: E -> int32, count: int32)
    returns (r: Result<seq<E>>)
    modifies reader`pos
    ensures var x := BonesFrom(c, childCount, reader.data, old(reader.pos), [], count, reader.bigEndian);
      if x.Success? then r == Success(x.value.0) && reader.pos == x.value.1 else r == Failure(x.error)
  {
    var bones: seq<E> := [];
    var boneCount := count;
    var i := 0;
    while i < boneCount
      invariant i == |bones| && boneCount == Reach(childCount, count, bones)
      invariant BonesFrom(c, childCount, reader.data, old(reader.pos), [], count, reader.bigEndian)
        == BonesFrom(c, childCount, reader.data, reader.pos, bones, count, reader.bigEndian)
      decreases 0x8000_0000 - i
    {
      var bone :- ReadRecord(reader, c, BoneRecordSize);
      boneCount := Max(boneCount, Wrap(i + childCount(bone)));
      assert (bones + [bone])[..i] == bones;
      bones := bones + [bone];
      i := i + 1;
    }
    r := Success(bones);
  }

  /** The lead, the bone loop and the end check, with the header read. */
  method ReadBonesBody<E>(reader: NativeReader, c: RecordCodec<E>, childCount: E -> int32, end: int, count: int32)
    returns (r: Result<seq<E>>)
    modifies reader`pos
    ensures r == BonesBodyAt(c, childCount, reader.data, old(reader.pos), end, count, reader.bigEndian)
  {
    if count < 0 {
      return Failure(ArgumentOutOfRange);
    }
    r := ReadBones(reader, c, childCount, count);
    if r.Success? {
      var at := reader.EnsurePositionOrThrow(end);
      if at.Failure? {
        return Failure(at.error);
      }
    }
  }

  /** A chunk of physical bones; the bone record is not part of this model,
      and its reader and its ChildCount field are passed in. */
  class CompiledPhysicalBonesChunk<E> {
    var header: ChunkHeader
    var bones: seq<E>

    constructor ()
      ensures bones == []
    {
      header := ChunkHeader(0, 0, 0, 0);
      bones := [];
    }

    method ReadFrom(reader: NativeReader, expectedSize: int32, codec: RecordCodec<E>, childCount: E -> int32)
      returns (r: Status)
      modifies this, reader`pos, reader`bigEndian
      ensures reader.bigEndian == old(reader.bigEndian)
      ensures PhysicalBonesOf(codec, childCount, reader.data, old(reader.pos), expectedSize, old(reader.bigEndian))
        == if r.Success? then Success((header, bones)) else Failure(r.error)
    {
      var expectedEnd := reader.pos + expectedSize;
      var h :- ReadChunkHeader(reader);
      header := h;
      var saved := reader.bigEndian;
      reader.bigEndian := IsBigEndian(h);
      var zeroes := ZeroesAt(reader, 32);
      if zeroes.Failure? {
        reader.bigEndian := saved;
        return Failure(zeroes.error);
      }
      var read := ReadBonesBody(reader, codec, childCount, expectedEnd, InitialCount(expectedSize));
      reader.bigEndian := saved;
      if read.Failure? {
        return Failure(read.error);
      }
      bones := read.value;
      r := Done;
    }

    /** WriteTo is not implemented. */
    method WriteTo(writer: NativeWriter, useBigEndian: bool) returns (r: Status)
      ensures r == Failure(NotImplemented)
    {
      r := Failure(NotImplemented);
    }
  }
}
