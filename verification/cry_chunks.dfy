/** SynergyLib's CryChunks: a dictionary from chunk id to chunk together
    with the file type and version, filled by AddChunkLE/AddChunkBE and by
    ReadFrom, laid out and emitted by WriteTo, and certified by FromStream,
    which decodes, re-encodes and compares. */
module SynergyChunks {
  import opened Outcomes
  import opened Binary
  import opened CryLayout
  import opened CryRoundTrip
  import ContainerIO
  import opened Records
  import NodeChunks
  import Dialects

  // ---------------------------------------------------------------------
  // Id assignment.

  /** The ids the chunks carry in their own headers (Values.Select(x => x.Header.Id)). */
  function HeaderIds(m: map<int, Chunk>): (ids: set<int>)
    ensures forall k :: k in m ==> m[k].header.id in ids
    ensures forall id :: id in ids ==> exists k :: k in m && m[k].header.id == id
  {
    set k | k in m :: m[k].header.id
  }

  /** The id AddChunk gives: 1 for an empty container, otherwise the largest
      header id plus one, in C#'s wrapping int arithmetic. */
  function NextId(m: map<int, Chunk>): (id: int32)
    ensures |m| == 0 ==> id == 1
    ensures |m| > 0 && (forall k :: k in m ==> m[k].header.id < 0x7FFF_FFFF) ==>
      forall k :: k in m ==> m[k].header.id < id
  {
    if |m| == 0 then 1
    else
      Inhabited(m.Keys);
      var k :| k in m;
      assert m[k].header.id in HeaderIds(m);
      Signed(Unsigned(SetMax(HeaderIds(m)) + 1))
  }

  /** Every chunk is filed under the id its own header carries. */
  predicate KeyedById(m: map<int, Chunk>)
  {
    forall k :: k in m ==> m[k].header.id == k
  }

  /** In a container keyed by header id whose largest id is below
      int.MaxValue, the next id is new and larger than every id in use. */
  lemma {:induction false} NextIdFresh(m: map<int, Chunk>)
    requires KeyedById(m) && forall k :: k in m ==> k < 0x7FFF_FFFF
    ensures NextId(m) !in m
    ensures forall k :: k in m ==> k < NextId(m)
  {
    if |m| > 0 {
      Inhabited(m.Keys);
      var k :| k in m;
      assert m[k].header.id in HeaderIds(m);
      assert SetMax(HeaderIds(m)) >= k;
    }
  }

  /** When the largest id is int.MaxValue the next id wraps around to
      int.MinValue. */
  lemma {:induction false} NextIdWraps(m: map<int, Chunk>, k: int)
    requires k in m && m[k].header.id == 0x7FFF_FFFF
    ensures NextId(m) == -0x8000_0000
  {
    assert m[k].header.id in HeaderIds(m);
  }

  /** (uint) version | 0x80000000u: the stored version with the big-endian bit set. */
  function BigEndianRaw(version: int): (raw: uint32)
    ensures raw >= 0x8000_0000 && raw % 0x8000_0000 == Unsigned(version) % 0x8000_0000
  {
    var u := Unsigned(version);
    if u >= 0x8000_0000 then u else u + 0x8000_0000
  }

  // ---------------------------------------------------------------------
  // The ignore zones of FromStream.

  /** A half-open byte range [lo, hi) the certification does not compare. */
  datatype Zone = Zone(lo: int, hi: int)

  predicate Ignored(zones: seq<Zone>, i: int)
  {
    exists z :: z in zones && z.lo <= i < z.hi
  }

  /** The payload of every MeshSubsets chunk. */
  function MeshSubsetsZones(cs: seq<Chunk>): (zs: seq<Zone>)
    ensures forall z :: z in zs ==> exists c :: c in cs && c.cls == MeshSubsetsChunk && z == Zone(c.header.offset, c.header.offset + WrittenSize(c))
    ensures forall c :: c in cs && c.cls == MeshSubsetsChunk ==> Zone(c.header.offset, c.header.offset + WrittenSize(c)) in zs
  {
    if cs == [] then []
    else
      (if cs[0].cls == MeshSubsetsChunk then [Zone(cs[0].header.offset, cs[0].header.offset + WrittenSize(cs[0]))] else [])
      + MeshSubsetsZones(cs[1..])
  }

  /** Bytes 8 to 12 after the offset of every SourceInfo chunk. */
  function SourceInfoZones(cs: seq<Chunk>): (zs: seq<Zone>)
    ensures forall z :: z in zs ==> exists c :: c in cs && c.cls == SourceInfoChunk && z == Zone(c.header.offset + 8, c.header.offset + 12)
    ensures forall c :: c in cs && c.cls == SourceInfoChunk ==> Zone(c.header.offset + 8, c.header.offset + 12) in zs
  {
    if cs == [] then []
    else
      (if cs[0].cls == SourceInfoChunk then [Zone(cs[0].header.offset + 8, cs[0].header.offset + 12)] else [])
      + SourceInfoZones(cs[1..])
  }

  /** The pad byte after the magic, the MeshSubsets payloads, the SourceInfo
      words, and the bytes 31 and 51 (the high bytes of the raw versions in
      the first two table entries). */
  function IgnoreZones(cs: seq<Chunk>): seq<Zone>
  {
    [Zone(7, 8)] + MeshSubsetsZones(cs) + SourceInfoZones(cs) + [Zone(31, 32), Zone(51, 52)]
  }

  /** The bytes a chunk list exempts from the comparison. */
  predicate Exempt(cs: seq<Chunk>, i: int)
  {
    || 7 <= i < 8 || 31 <= i < 32 || 51 <= i < 52
    || (exists c :: c in cs && c.cls == MeshSubsetsChunk && c.header.offset <= i < c.header.offset + WrittenSize(c))
    || (exists c :: c in cs && c.cls == SourceInfoChunk && c.header.offset + 8 <= i < c.header.offset + 12)
  }

  /** A byte lies in one of the ignore zones exactly when it is exempt. */
  lemma {:induction false} IgnoredIff(cs: seq<Chunk>, i: int)
    ensures Ignored(IgnoreZones(cs), i) <==> Exempt(cs, i)
  {
    if Ignored(IgnoreZones(cs), i) {
      IgnoredExempt(cs, i);
    }
    if Exempt(cs, i) {
      ExemptIgnored(cs, i);
    }
  }

  lemma {:induction false} IgnoredExempt(cs: seq<Chunk>, i: int)
    requires Ignored(IgnoreZones(cs), i)
    ensures Exempt(cs, i)
  {
    var a := MeshSubsetsZones(cs);
    var b := SourceInfoZones(cs);
    var z :| z in IgnoreZones(cs) && z.lo <= i < z.hi;
    if z in a {
      var c :| c in cs && c.cls == MeshSubsetsChunk && z == Zone(c.header.offset, c.header.offset + WrittenSize(c));
    } else if z in b {
      var c :| c in cs && c.cls == SourceInfoChunk && z == Zone(c.header.offset + 8, c.header.offset + 12);
    } else {
      assert z == Zone(7, 8) || z == Zone(31, 32) || z == Zone(51, 52);
    }
  }

  lemma {:induction false} ExemptIgnored(cs: seq<Chunk>, i: int)
    requires Exempt(cs, i)
    ensures Ignored(IgnoreZones(cs), i)
  {
    var zs := IgnoreZones(cs);
    if 7 <= i < 8 {
      assert Zone(7, 8) in zs;
    } else if 31 <= i < 32 {
      assert Zone(31, 32) in zs;
    } else if 51 <= i < 52 {
      assert Zone(51, 52) in zs;
    } else if exists c :: c in cs && c.cls == MeshSubsetsChunk && c.header.offset <= i < c.header.offset + WrittenSize(c) {
      var c :| c in cs && c.cls == MeshSubsetsChunk && c.header.offset <= i < c.header.offset + WrittenSize(c);
      assert Zone(c.header.offset, c.header.offset + WrittenSize(c)) in zs;
    } else {
      var c :| c in cs && c.cls == SourceInfoChunk && c.header.offset + 8 <= i < c.header.offset + 12;
      assert Zone(c.header.offset + 8, c.header.offset + 12) in zs;
    }
  }

  /** The two byte strings agree on their common length outside the zones. */
  predicate AgreeOutside(a: seq<byte>, b: seq<byte>, zones: seq<Zone>)
  {
    forall i :: 0 <= i < |a| && i < |b| ==> a[i] == b[i] || Ignored(zones, i)
  }

  /** What FromStream does with the bytes of a stream: decode them, encode
      the result again, compare outside the ignore zones (computed from the
      chunks after WriteTo has laid them out), and compare the lengths; the
      chunk classes decoded are the ones d reads. */
  function Certify(d: Dialect, inBytes: seq<byte>): Result<Contents>
  {
    var c :- Decode(d, inBytes, 0, true, map[]);
    Recheck(inBytes, c)
  }

  /** The second half of Certify, from the decoded container on. */
  function Recheck(inBytes: seq<byte>, c: Contents): Result<Contents>
  {
    var outBytes := Image(c.fileType, c.fileVersion, c.chunks, false);
    if !Addressable(Relay(Ordered(c.chunks))) then Failure(LayoutMismatch)
    else if !AgreeOutside(inBytes, outBytes, IgnoreZones(Ordered(Relaid(c.chunks)))) then Failure(RoundTripMismatch)
    else if |inBytes| != |outBytes| then Failure(LengthMismatch)
    else Success(Contents(c.fileType, c.fileVersion, Relaid(c.chunks)))
  }

  /** FromStream accepts every file WriteTo writes whose chunks reread,
      and gives back the container with the offsets WriteTo assigned. */
  lemma {:induction false} CertifyImage(d: Dialect, t: uint32, v: uint32, m: map<int, Chunk>)
    requires d.SynergyLib? && IsFileType(t) && IsFileVersion(v) && Writable(d, m) && Stable(d, m)
    requires |Image(t, v, m, false)| < 0x8000_0000
    ensures Certify(d, Image(t, v, m, false)) == Success(Contents(t, v, Relaid(m)))
  {
    DecodeImage(d, t, v, m, true);
    ImageAddressable(t, v, m, false);
    ImageRelaid(t, v, m, false);
    RelaidIdempotent(m);
  }

  // ---------------------------------------------------------------------
  // The class.

  class CryChunks {
    var chunks: map<int, Chunk>
    var fileType: uint32
    var fileVersion: uint32

    constructor ()
      ensures chunks == map[] && fileType == 0 && fileVersion == 0
    {
      chunks := map[];
      fileType := 0;
      fileVersion := 0;
    }

    /** Gives the chunk a fresh header (type, version stored as is, offset
        0, the next id) and adds it under that id. */
    method AddChunkLE(chunkType: uint32, version: int, cls: ChunkClass, body: seq<byte>) returns (r: Result<Chunk>)
      modifies this`chunks
      ensures r.Success? <==> NextId(old(chunks)) !in old(chunks)
      ensures r.Success? ==>
        r.value == Chunk(cls, ChunkHeader(chunkType, Unsigned(version), 0, NextId(old(chunks))), body)
        && chunks == old(chunks)[NextId(old(chunks)) := r.value]
      ensures r.Failure? ==> r.error == DuplicateKey(NextId(old(chunks))) && chunks == old(chunks)
    {
      var c := Chunk(cls, ChunkHeader(chunkType, Unsigned(version), 0, NextId(chunks)), body);
      r := Add(c);
    }

    /** As AddChunkLE, with the big-endian bit set in the stored version. */
    method AddChunkBE(chunkType: uint32, version: int, cls: ChunkClass, body: seq<byte>) returns (r: Result<Chunk>)
      modifies this`chunks
      ensures r.Success? <==> NextId(old(chunks)) !in old(chunks)
      ensures r.Success? ==>
        r.value == Chunk(cls, ChunkHeader(chunkType, BigEndianRaw(version), 0, NextId(old(chunks))), body)
        && chunks == old(chunks)[NextId(old(chunks)) := r.value]
      ensures r.Failure? ==> r.error == DuplicateKey(NextId(old(chunks))) && chunks == old(chunks)
    {
      var c := Chunk(cls, ChunkHeader(chunkType, BigEndianRaw(version), 0, NextId(chunks)), body);
      r := Add(c);
    }

    /** Dictionary.Add under the chunk's header id: an id in use throws. */
    method Add(c: Chunk) returns (r: Result<Chunk>)
      modifies this`chunks
      ensures r.Success? <==> c.header.id !in old(chunks)
      ensures r.Success? ==> r.value == c && chunks == old(chunks)[c.header.id := c]
      ensures r.Failure? ==> r.error == DuplicateKey(c.header.id) && chunks == old(chunks)
    {
      if c.header.id in chunks {
        return Failure(DuplicateKey(c.header.id));
      }
      chunks := chunks[c.header.id := c];
      r := Success(c);
    }

    /** Reads a SynergyLib container into this dictionary, running the
        node, physical-proxy and morph-target readers on their chunks (the
        float decoding and the two record codecs are passed in): on success
        the fields hold exactly what Decode gives. */
    method ReadFrom<P, M>(reader: NativeReader, f: NodeChunks.Floats, proxies: RecordCodec<P>, targets: RecordCodec<M>)
      returns (r: Status)
      modifies this, reader
      ensures reader.bigEndian == old(reader.bigEndian)
      ensures Decode(Dialects.SynergyDecoder(f, proxies, targets), reader.data, old(reader.pos), reader.canSeek, old(chunks)) ==
        (if r.Success? then Success(Contents(fileType, fileVersion, chunks)) else Failure(r.error))
    {
      var c := ContainerIO.ReadContainer(Dialects.SynergyDecoder(f, proxies, targets), reader, chunks);
      if c.Failure? {
        return Failure(c.error);
      }
      fileType := c.value.fileType;
      fileVersion := c.value.fileVersion;
      chunks := c.value.chunks;
      r := Done;
    }

    /** Writes the header, computes the offsets in id order (overwriting
        every chunk's own header offset), writes the table, then each chunk
        after padding to 4, refusing a position that differs from the
        chunk's offset as an int32. Only a writer at position 0 can hold a
        chunk, and only while every offset fits in an int32. */
    method WriteTo(writer: NativeWriter) returns (r: Status)
      modifies this`chunks, writer`data
      ensures chunks == Relaid(old(chunks))
      ensures r.Success? <==> |old(chunks)| == 0 || (|old(writer.data)| == 0 && Addressable(Relay(Ordered(old(chunks)))))
      ensures r.Failure? ==> r.error == LayoutMismatch
      ensures r.Success? ==>
        writer.data == old(writer.data) + Image(old(fileType), old(fileVersion), old(chunks), old(writer.bigEndian))
    {
      var t, v := fileType, fileVersion;
      ghost var m, w := chunks, writer.data;
      WriteHead(writer, t, v, |chunks|);
      ghost var head := writer.data;
      var entries := LayOut();
      // The ordered array holds the chunk objects themselves, whose headers
      // now carry the offsets.
      var cs := Ordered(chunks);
      LaidOutOrder(m, cs);
      r := WriteBody(writer, entries[..], cs, |w|);
      WrittenImage(w, head, writer.data, t, v, m, cs, writer.bigEndian);
    }

    /** The table and the chunks of a laid-out container. */
    static method WriteBody(writer: NativeWriter, es: seq<Entry>, cs: seq<Chunk>, ghost w: nat) returns (r: Status)
      requires Placed(cs) && es == Entries(cs)
      requires |writer.data| == w + FileHeaderSize
      modifies writer`data
      ensures r.Success? <==> |cs| == 0 || (w == 0 && Addressable(cs))
      ensures r.Failure? ==> r.error == LayoutMismatch
      ensures r.Success? ==>
        writer.data == old(writer.data) + Table(cs, writer.bigEndian) + Payload(cs, TableEnd(|cs|), writer.bigEndian)
    {
      ContainerIO.WriteTable(writer, es, cs);
      r := WriteChunks(writer, cs, w);
    }

    /** The 24-byte file header: the magic, its pad byte, type, version,
        the table offset 20 and the count. */
    static method WriteHead(writer: NativeWriter, t: uint32, v: uint32, n: int)
      modifies writer`data
      ensures writer.data == old(writer.data) + FileHead(t, v, n, writer.bigEndian)
    {
      ghost var d0, be := writer.data, writer.bigEndian;
      writer.WriteBytes(CryTek);
      writer.WriteByte(0);
      ghost var h := CryTek + [0];
      assert writer.data == d0 + h;
      writer.WriteUInt32(t);
      writer.WriteUInt32(v);
      writer.WriteInt32(20);
      Appended4(d0, h, U32Bytes(t, be), U32Bytes(v, be), I32Bytes(20, be));
      writer.WriteInt32(n);
      Appended(d0, h + U32Bytes(t, be) + U32Bytes(v, be) + I32Bytes(20, be), I32Bytes(n, be));
    }

    /** The offset loop of WriteTo. The summary entries share their header
        objects with the chunks, so setting an entry's offset sets the
        chunk's own offset too: the dictionary ends up relaid, with the
        offsets the entries record. */
    method LayOut() returns (entries: array<Entry>)
      modifies this`chunks
      ensures fresh(entries)
      ensures chunks == Relaid(old(chunks))
      ensures entries[..] == Entries(Relay(Ordered(old(chunks))))
    {
      entries := ContainerIO.LayEntries(Ordered(chunks));
      chunks := Relaid(chunks);
    }

    /** The chunk loop of WriteTo over the laid-out chunks in id order,
        once the header and the table (`w` bytes after the writer's start)
        are written: pad to 4, refuse a position that is not the chunk's
        offset (an int32, so an offset past 2^31 - 1 has wrapped), write
        the chunk. */
    static method WriteChunks(writer: NativeWriter, cs: seq<Chunk>, ghost w: nat) returns (r: Status)
      requires Placed(cs)
      requires |writer.data| == w + TableEnd(|cs|)
      modifies writer`data
      ensures r.Success? <==> |cs| == 0 || (w == 0 && Addressable(cs))
      ensures r.Failure? ==> r.error == LayoutMismatch
      ensures r.Success? ==> writer.data == old(writer.data) + Payload(cs, TableEnd(|cs|), writer.bigEndian)
    {
      for i := 0 to |cs|
        invariant i > 0 ==> w == 0 && Offset(Sizes(cs), i - 1) < 0x8000_0000
        invariant writer.data == old(writer.data) + Payload(cs[..i], TableEnd(|cs|), writer.bigEndian)
      {
        ghost var before := writer.data;
        writer.WritePadding4();
        assert OwnOffset(cs[i]) == Offset(Sizes(cs), i);
        if w == 0 {
          PlacedTurn(cs, writer.bigEndian, i, TableEnd(|cs|), old(writer.data), before, writer.data);
        } else {
          ShiftedTurn(cs, writer.bigEndian, w, old(writer.data), before, writer.data);
        }
        PositionCheck(cs, i, w, |writer.data|);
        if |writer.data| != Wrap(cs[i].header.offset) {
          return Failure(LayoutMismatch);
        }
        writer.WriteBytes(ChunkBytes(cs[i]));
      }
      assert cs[..|cs|] == cs;
      r := Done;
    }

    /** Decodes the stream's bytes, encodes the result again and compares:
        the bytes must agree outside the ignore zones and have the same
        length. It computes exactly Certify. */
    static method FromStream<P, M>(f: NodeChunks.Floats, proxies: RecordCodec<P>, targets: RecordCodec<M>, inBytes: seq<byte>)
      returns (r: Result<CryChunks>)
      ensures Certify(Dialects.SynergyDecoder(f, proxies, targets), inBytes) ==
        (if r.Success? then Success(Contents(r.value.fileType, r.value.fileVersion, r.value.chunks)) else Failure(r.error))
    {
      var reader := new NativeReader(inBytes, true);
      var testfile := new CryChunks();
      var read := testfile.ReadFrom(reader, f, proxies, targets);
      ghost var c := Contents(testfile.fileType, testfile.fileVersion, testfile.chunks);
      CertifyDecoded(Dialects.SynergyDecoder(f, proxies, targets), inBytes, c, read);
      if read.Failure? {
        return Failure(read.error);
      }
      var same := testfile.Reencode(inBytes);
      if same.Failure? {
        return Failure(same.error);
      }
      r := Success(testfile);
    }

    /** The rest of FromStream: writes the container to a fresh stream
        and compares the bytes with the ones it was read from. */
    method Reencode(inBytes: seq<byte>) returns (r: Status)
      modifies this`chunks
      ensures Recheck(inBytes, Contents(old(fileType), old(fileVersion), old(chunks))) ==
        (if r.Success? then Success(Contents(old(fileType), old(fileVersion), chunks)) else Failure(r.error))
    {
      ghost var c := Contents(fileType, fileVersion, chunks);
      var writer := new NativeWriter();
      var written := WriteTo(writer);
      if written.Failure? {
        return Failure(written.error);
      }
      var outBytes := writer.data;
      var zones := IgnoreZones(Ordered(chunks));
      var same := Compare(inBytes, outBytes, zones);
      RecheckParts(inBytes, c, outBytes, chunks, zones, same);
      r := same;
    }

    /** FromStream's comparison: the bytes must agree outside the zones up
        to the shorter length, then the lengths must agree. */
    static method Compare(inBytes: seq<byte>, outBytes: seq<byte>, zones: seq<Zone>) returns (r: Status)
      ensures r.Success? <==> AgreeOutside(inBytes, outBytes, zones) && |inBytes| == |outBytes|
      ensures r.Failure? ==> r.error == (if AgreeOutside(inBytes, outBytes, zones) then LengthMismatch else RoundTripMismatch)
    {
      var to := if |inBytes| < |outBytes| then |inBytes| else |outBytes|;
      for i := 0 to to
        invariant forall j :: 0 <= j < i ==> inBytes[j] == outBytes[j] || Ignored(zones, j)
      {
        if inBytes[i] != outBytes[i] && !Ignored(zones, i) {
          return Failure(RoundTripMismatch);
        }
      }
      if |inBytes| != |outBytes| {
        return Failure(LengthMismatch);
      }
      r := Done;
    }
  }

  /** Certify is the decoding followed by Recheck. */
  lemma {:induction false} CertifyDecoded(d: Dialect, inBytes: seq<byte>, c: Contents, read: Status)
    ensures Decode(d, inBytes, 0, true, map[]) == (if read.Success? then Success(c) else Failure(read.error))
      ==> Certify(d, inBytes) == (if read.Success? then Recheck(inBytes, c) else Failure(read.error))
  {
  }

  /** An image and the comparison with it make up Recheck. */
  lemma {:induction false} RecheckParts(inBytes: seq<byte>, c: Contents, outBytes: seq<byte>, laid: map<int, Chunk>,
                                        zones: seq<Zone>, same: Status)
    ensures (outBytes == Image(c.fileType, c.fileVersion, c.chunks, false) && Addressable(Relay(Ordered(c.chunks)))
        && laid == Relaid(c.chunks) && zones == IgnoreZones(Ordered(laid))
        && (same.Success? <==> AgreeOutside(inBytes, outBytes, zones) && |inBytes| == |outBytes|)
        && (same.Failure? ==> same.error == (if AgreeOutside(inBytes, outBytes, zones) then LengthMismatch else RoundTripMismatch)))
      ==> Recheck(inBytes, c) == (if same.Success? then Success(Contents(c.fileType, c.fileVersion, laid)) else Failure(same.error))
  {
  }

  /** WriteTo's three parts make up the image. */
  lemma {:induction false} WrittenImage(w: seq<byte>, head: seq<byte>, out: seq<byte>,
                                        t: uint32, v: uint32, m: map<int, Chunk>, cs: seq<Chunk>, be: bool)
    ensures (cs == Relay(Ordered(m)) && head == w + FileHead(t, v, |m|, be)
        && out == head + Table(cs, be) + Payload(cs, TableEnd(|cs|), be))
      ==> out == w + Image(t, v, m, be)
  {
    if cs == Relay(Ordered(m)) && head == w + FileHead(t, v, |m|, be) {
      assert TableEnd(|cs|) == TableEnd(|m|);
      Concat4(w, FileHead(t, v, |m|, be), Table(cs, be), Payload(cs, TableEnd(|cs|), be));
    }
  }

  lemma {:induction false} Concat4(w: seq<byte>, a: seq<byte>, b: seq<byte>, c: seq<byte>)
    ensures w + a + b + c == w + (a + b + c)
  {
  }

  /** After the offset loop, the chunks in id order are the relaid ones,
      each recording its own offset. */
  lemma {:induction false} LaidOutOrder(m: map<int, Chunk>, cs: seq<Chunk>)
    ensures cs == Ordered(Relaid(m)) ==> cs == Relay(Ordered(m)) && Placed(cs) && |cs| == |m|
  {
    if cs == Ordered(Relaid(m)) {
      OrderedRelaid(m);
      RelayPlaced(Ordered(m));
    }
  }

  /** One turn of the chunk loop of a container written from position 0:
      after padding, the position is the chunk's offset, and the chunk
      extends the payload by one. */
  lemma {:induction false} PlacedTurn(cs: seq<Chunk>, be: bool, i: int, te: nat, base: seq<byte>, before: seq<byte>, padded: seq<byte>)
    ensures (0 <= i < |cs| && te == TableEnd(|cs|) && cs[i].header.offset == Offset(Sizes(cs), i) && |base| == te
        && before == base + Payload(cs[..i], te, be) && padded == before + Zeros(PadTo4(|before|)))
      ==>
        && |padded| == cs[i].header.offset
        && padded + ChunkBytes(cs[i]) == base + Payload(cs[..i + 1], te, be)
  {
    if && 0 <= i < |cs| && te == TableEnd(|cs|) && cs[i].header.offset == Offset(Sizes(cs), i) && |base| == te
       && before == base + Payload(cs[..i], te, be) && padded == before + Zeros(PadTo4(|before|))
    {
      var pre := Payload(cs[..i], te, be);
      var n := |before|;
      assert n == te + |pre|;
      var z := Zeros(PadTo4(n));
      assert |padded| == RoundUp4(n);
      PlacedLength(cs, be, i, te, n);
      PlacedStep(cs, be, i, te, pre, n, z);
      PaddedBytes(base, before, padded, pre, z, ChunkBytes(cs[i]), Payload(cs[..i + 1], te, be));
    }
  }

  /** The first i chunks, padded, end at the i-th chunk's offset. */
  lemma {:induction false} PlacedLength(cs: seq<Chunk>, be: bool, i: nat, te: nat, n: nat)
    requires i < |cs| && te == TableEnd(|cs|) && n == te + |Payload(cs[..i], te, be)|
    ensures RoundUp4(n) == Offset(Sizes(cs), i)
  {
    PayloadPadded(cs, be, i);
  }

  /** Writing the i-th chunk extends the first i, which end at n, by the
      padding after them and the chunk's bytes. */
  lemma {:induction false} PlacedStep(cs: seq<Chunk>, be: bool, i: nat, te: nat, pre: seq<byte>, n: nat, z: seq<byte>)
    requires i < |cs| && pre == Payload(cs[..i], te, be) && n == te + |pre| && z == Zeros(PadTo4(n))
    ensures Payload(cs[..i + 1], te, be) == pre + z + ChunkBytes(cs[i])
  {
    PayloadStep(cs, te, be, i);
  }

  lemma {:induction false} PaddedBytes(base: seq<byte>, before: seq<byte>, padded: seq<byte>,
                                       p: seq<byte>, z: seq<byte>, c: seq<byte>, next: seq<byte>)
    requires before == base + p && padded == before + z && next == p + z + c
    ensures padded + c == base + next
  {
  }

  /** A container written behind `w` > 0 other bytes finds its first chunk
      past the chunk's offset. */
  /** The position check of one turn passes exactly when the stream began
      at zero and the chunk's offset fits an int32; when it fails, the
      chunks are not addressable from zero. */
  lemma {:induction false} PositionCheck(cs: seq<Chunk>, i: nat, w: nat, padded: nat)
    requires Placed(cs) && i < |cs| && (i > 0 ==> w == 0)
    requires w == 0 ==> padded == cs[i].header.offset
    requires w > 0 ==> padded > cs[0].header.offset
    ensures padded == Wrap(cs[i].header.offset) <==> w == 0 && Offset(Sizes(cs), i) < 0x8000_0000
    ensures padded != Wrap(cs[i].header.offset) ==> !(w == 0 && Addressable(cs))
  {
    AddressableAt(cs, i);
    assert OwnOffset(cs[i]) == Offset(Sizes(cs), i);
    WrapKeeps(cs[i].header.offset);
  }

  lemma {:induction false} ShiftedTurn(cs: seq<Chunk>, be: bool, w: int, base: seq<byte>, before: seq<byte>, padded: seq<byte>)
    ensures (0 < |cs| && Placed(cs) && 0 < w && |base| == w + TableEnd(|cs|)
        && before == base + Payload(cs[..0], TableEnd(|cs|), be) && padded == before + Zeros(PadTo4(|before|)))
      ==> |padded| > cs[0].header.offset
  {
    if && 0 < |cs| && Placed(cs) && 0 < w && |base| == w + TableEnd(|cs|)
       && before == base + Payload(cs[..0], TableEnd(|cs|), be) && padded == before + Zeros(PadTo4(|before|))
    {
      assert OwnOffset(cs[0]) == Offset(Sizes(cs), 0);
      assert cs[..0] == [];
    }
  }
}
