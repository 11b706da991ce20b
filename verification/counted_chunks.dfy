/** The count-prefixed list chunks of SynergyLib: CompiledPhysicalProxyChunk
    and CompiledMorphTargetsChunk. Both are a chunk header in the base byte
    order, then an int32 count and that many records in the order the
    header's flag names (on write, the order the caller asks for). They
    differ only in their record type and in the size hint passed to each
    record's ReadFrom (-1 for proxies, 16 for morph targets). */
module CountedChunks {
  import opened Outcomes
  import opened Binary
  import opened CryLayout
  import opened Records

  /** The size hint CompiledPhysicalProxyChunk passes to each proxy. */
  const ProxyHint: int := -1
  /** The size hint CompiledMorphTargetsChunk passes to each target. */
  const MorphTargetHint: int := 16

  /** What a list chunk holds: its header and its records. */
  datatype Counted<E> = Counted(header: ChunkHeader, items: seq<E>)

  /** ReadFrom at p with the base order baseBe: the header; the count in the
      header's order, where a negative count is refused by the list's
      EnsureCapacity; the records; and the check that the chunk ends
      exactly expectedSize bytes after p. */
  function CountedOf<E>(c: RecordCodec<E>, hint: int, data: seq<byte>, p: nat, expectedSize: int, baseBe: bool): (r: Result<Counted<E>>)
    ensures r.Success? ==> p + HeaderSize + 4 <= |data| && r.value.header == HeaderOf(data[p..p + HeaderSize], baseBe)
    ensures r.Success? ==> |r.value.items| == I32Of(data[p + HeaderSize..p + HeaderSize + 4], IsBigEndian(r.value.header))
  {
    var header :- HeaderAt(data, p, baseBe);
    var items :- CountedBodyAt(c, hint, data, p + HeaderSize, p + expectedSize, IsBigEndian(header));
    Success(Counted(header, items))
  }

  /** What follows the header, in the order be: the count, the records and
      the check that they end at `end`. */
  function CountedBodyAt<E>(c: RecordCodec<E>, hint: int, data: seq<byte>, q: nat, end: int, be: bool): (r: Result<seq<E>>)
    ensures r.Success? ==> q + 4 <= |data| && |r.value| == I32Of(data[q..q + 4], be)
  {
    var count :- I32At(data, q, be);
    if count < 0 then Failure(ArgumentOutOfRange)
    else
      var list :- ReadList(c, data, q + 4, count, be, hint);
      if list.1 != end then Failure(PositionMismatch(end, list.1))
      else Success(list.0)
  }

  /** WriteTo: the header always little-endian, then the count and the
      records in the order asked for. */
  function CountedBytes<E>(c: RecordCodec<E>, v: Counted<E>, useBe: bool): seq<byte>
  {
    HeaderBytes(v.header, false) + I32Bytes(|v.items|, useBe) + ListBytes(c, v.items, useBe)
  }

  /** WrittenSize: the header, the count and the records' WrittenSize. */
  function CountedSize<E>(c: RecordCodec<E>, v: Counted<E>): nat
  {
    HeaderSize + 4 + SumSizes(c, v.items)
  }

  /** WrittenSize is the number of bytes WriteTo writes, in either order. */
  lemma {:induction false} CountedSizeIsLength<E(!new)>(c: RecordCodec<E>, hint: int, v: Counted<E>, useBe: bool)
    requires Sound(c, hint)
    ensures |CountedBytes(c, v, useBe)| == CountedSize(c, v)
  {
    ListLength(c, v.items, useBe, hint);
  }

  /** A written list chunk reads back, from the base order little-endian
      and with its WrittenSize as expected size, as the same header and
      records, provided the header's endianness flag names the order the
      body was written in and the header's offset and the count fit in an
      int32. */
  lemma {:induction false} CountedRoundTrip<E(!new)>(c: RecordCodec<E>, hint: int, v: Counted<E>, useBe: bool, data: seq<byte>, p: nat)
    requires Sound(c, hint)
    requires IsBigEndian(v.header) == useBe
    requires -0x8000_0000 <= v.header.offset < 0x8000_0000 && |v.items| < 0x8000_0000
    requires At(data, p, CountedBytes(c, v, useBe))
    ensures CountedOf(c, hint, data, p, CountedSize(c, v), false) == Success(v)
  {
    var hb, nb, lb := HeaderBytes(v.header, false), I32Bytes(|v.items|, useBe), ListBytes(c, v.items, useBe);
    AtSplit(data, p, hb + nb, lb);
    AtSplit(data, p, hb, nb);
    AtSlice(data, p, hb);
    AtSlice(data, p + HeaderSize, nb);
    HeaderRoundTrip(v.header, false);
    I32RoundTrip(|v.items|, useBe);
    ReadListBytes(c, v.items, useBe, hint, data, p + HeaderSize + 4);
    CountedSizeIsLength(c, hint, v, useBe);
  }

  /** The shared body of the two ReadFrom methods. */
  method ReadCounted<E>(reader: NativeReader, c: RecordCodec<E>, hint: int, expectedSize: int) returns (r: Result<Counted<E>>)
    modifies reader`pos, reader`bigEndian
    ensures reader.bigEndian == old(reader.bigEndian)
    ensures r == CountedOf(c, hint, reader.data, old(reader.pos), expectedSize, old(reader.bigEndian))
  {
    var start := reader.pos;
    var header :- ReadChunkHeader(reader);
    var saved := reader.bigEndian;
    reader.bigEndian := IsBigEndian(header);
    var items := ReadCountedBody(reader, c, hint, start + expectedSize);
    reader.bigEndian := saved;
    if items.Failure? {
      return Failure(items.error);
    }
    r := Success(Counted(header, items.value));
  }

  /** The count, the records and the end check, in the reader's order. */
  method ReadCountedBody<E>(reader: NativeReader, c: RecordCodec<E>, hint: int, end: int) returns (r: Result<seq<E>>)
    modifies reader`pos
    ensures r == CountedBodyAt(c, hint, reader.data, old(reader.pos), end, reader.bigEndian)
  {
    var count :- reader.ReadInt32();
    if count < 0 {
      return Failure(ArgumentOutOfRange);
    }
    var items :- ReadItems(reader, c, hint, count);
    var at := reader.EnsurePositionOrThrow(end);
    if at.Failure? {
      return Failure(at.error);
    }
    r := Success(items);
  }

  /** The shared body of the two WriteTo methods. */
  method WriteCounted<E>(writer: NativeWriter, c: RecordCodec<E>, v: Counted<E>, useBe: bool)
    modifies writer`data, writer`bigEndian
    ensures writer.bigEndian == old(writer.bigEndian)
    ensures writer.data == old(writer.data) + CountedBytes(c, v, useBe)
  {
    writer.WriteBytes(HeaderBytes(v.header, false));
    var saved := writer.bigEndian;
    writer.bigEndian := useBe;
    writer.WriteInt32(|v.items|);
    WriteItems(writer, c, v.items, useBe);
    writer.bigEndian := saved;
  }

  /** A chunk of physical proxies; the proxy codec is not part of this
      model and is passed in. */
  class CompiledPhysicalProxyChunk<E> {
    var header: ChunkHeader
    var proxies: seq<E>

    constructor ()
      ensures proxies == []
    {
      header := ChunkHeader(0, 0, 0, 0);
      proxies := [];
    }

    method ReadFrom(reader: NativeReader, expectedSize: int, codec: RecordCodec<E>) returns (r: Status)
      modifies this, reader`pos, reader`bigEndian
      ensures reader.bigEndian == old(reader.bigEndian)
      ensures CountedOf(codec, ProxyHint, reader.data, old(reader.pos), expectedSize, old(reader.bigEndian))
        == if r.Success? then Success(Counted(header, proxies)) else Failure(r.error)
    {
      var v := ReadCounted(reader, codec, ProxyHint, expectedSize);
      if v.Failure? {
        return Failure(v.error);
      }
      header, proxies := v.value.header, v.value.items;
      r := Done;
    }

    method WriteTo(writer: NativeWriter, useBigEndian: bool, codec: RecordCodec<E>)
      modifies writer`data, writer`bigEndian
      ensures writer.bigEndian == old(writer.bigEndian)
      ensures writer.data == old(writer.data) + CountedBytes(codec, Counted(header, proxies), useBigEndian)
    {
      WriteCounted(writer, codec, Counted(header, proxies), useBigEndian);
    }

    function WrittenSize(codec: RecordCodec<E>): nat
      reads this
    {
      CountedSize(codec, Counted(header, proxies))
    }
  }

  /** A chunk of morph targets; the target codec is not part of this model
      and is passed in. */
  class CompiledMorphTargetsChunk<E> {
    var header: ChunkHeader
    var targets: seq<E>

    constructor ()
      ensures targets == []
    {
      header := ChunkHeader(0, 0, 0, 0);
      targets := [];
    }

    method ReadFrom(reader: NativeReader, expectedSize: int, codec: RecordCodec<E>) returns (r: Status)
      modifies this, reader`pos, reader`bigEndian
      ensures reader.bigEndian == old(reader.bigEndian)
      ensures CountedOf(codec, MorphTargetHint, reader.data, old(reader.pos), expectedSize, old(reader.bigEndian))
        == if r.Success? then Success(Counted(header, targets)) else Failure(r.error)
    {
      var v := ReadCounted(reader, codec, MorphTargetHint, expectedSize);
      if v.Failure? {
        return Failure(v.error);
      }
      header, targets := v.value.header, v.value.items;
      r := Done;
    }

    method WriteTo(writer: NativeWriter, useBigEndian: bool, codec: RecordCodec<E>)
      modifies writer`data, writer`bigEndian
      ensures writer.bigEndian == old(writer.bigEndian)
      ensures writer.data == old(writer.data) + CountedBytes(codec, Counted(header, targets), useBigEndian)
    {
      WriteCounted(writer, codec, Counted(header, targets), useBigEndian);
    }

    function WrittenSize(codec: RecordCodec<E>): nat
      reads this
    {
      CountedSize(codec, Counted(header, targets))
    }
  }
}
