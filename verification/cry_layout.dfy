/** The CryEngine chunk container shared by both dialects: the chunk header
    and summary-table entry codecs, the decoder registries, the layout that
    WriteTo computes, the bytes it emits, and what ReadFrom accepts, as
    functions. The classes in cry_chunks.dfy and cry_file.dfy are proved
    against these functions. */
module CryLayout {
  import opened Outcomes
  import opened Binary

  // Chunk type codes (the ChunkType enum; CryEngine's own values).
  const MeshType: uint32 := 0xCCCC_0000
  const HelperType: uint32 := 0xCCCC_0001
  const NodeType: uint32 := 0xCCCC_000B
  const ControllerType: uint32 := 0xCCCC_000D
  const TimingType: uint32 := 0xCCCC_000E
  const SourceInfoType: uint32 := 0xCCCC_0013
  const MtlNameType: uint32 := 0xCCCC_0014
  const ExportFlagsType: uint32 := 0xCCCC_0015
  const DataStreamType: uint32 := 0xCCCC_0016
  const MeshSubsetsType: uint32 := 0xCCCC_0017
  const MeshPhysicsDataType: uint32 := 0xCCCC_0018
  const CompiledBonesType: uint32 := 0xACDC_0000
  const CompiledPhysicalBonesType: uint32 := 0xACDC_0001
  const CompiledMorphTargetsType: uint32 := 0xACDC_0002
  const CompiledPhysicalProxiesType: uint32 := 0xACDC_0003
  const CompiledIntFacesType: uint32 := 0xACDC_0004
  const CompiledIntSkinVerticesType: uint32 := 0xACDC_0005
  const CompiledExt2IntMapType: uint32 := 0xACDC_0006
  const BonesBoxesType: uint32 := 0xAAFC_0004
  const FoliageInfoType: uint32 := 0xAAFC_0005

  /** The defined members of the file type and file version enums. */
  predicate IsFileType(t: uint32) { t == 0xFFFF_0000 || t == 0xFFFF_0001 }
  predicate IsFileVersion(v: uint32) { v == 0x744 || v == 0x745 || v == 0x746 }

  /** "CryTek" and its terminating zero byte. */
  const CryTek: seq<byte> := [0x43, 0x72, 0x79, 0x54, 0x65, 0x6B, 0x00]

  /** What the ReadFrom of one chunk class makes of that chunk's bytes (its
      header included, exactly its declared size): the payload its WriteTo
      gives back for the object read, that is, the bytes after the header,
      or the exception it throws. */
  type ChunkReader = seq<byte> -> Result<seq<byte>>

  /** The two decoders, CryChunks.ReadFrom of SynergyLib and CryFile.ReadFrom
      of WiiUStreamTool, each with the ReadFrom of the chunk classes this
      model decodes in that dialect: NodeChunk, CompiledPhysicalProxyChunk
      and CompiledMorphTargetsChunk for SynergyLib, CompiledPhysicalBonesChunk
      for WiiU. The module Dialects builds them from the chunk codecs. */
  datatype Dialect =
    | SynergyLib(node: ChunkReader, proxies: ChunkReader, morphTargets: ChunkReader)
    | WiiU(physicalBones: ChunkReader)

  /** The magic each dialect checks: seven bytes followed by one pad byte
      that is read but not checked, or eight bytes. */
  function Magic(d: Dialect): (r: seq<byte>)
    ensures 7 <= |r| <= 8 && r[..7] == CryTek
  {
    if d.SynergyLib? then CryTek else CryTek + [0]
  }

  /** The chunk classes the decoders instantiate. */
  datatype ChunkClass =
    | SourceInfoChunk | TimingChunk | MtlNameChunk | CompiledBonesChunk
    | CompiledPhysicalBonesChunk | CompiledPhysicalProxyChunk | CompiledMorphTargetsChunk
    | CompiledIntSkinVerticesChunk | CompiledIntFacesChunk | CompiledExtToIntMapChunk
    | BonesBoxesChunk | ExportFlagsChunk | MeshPhysicsDataChunk | MeshSubsetsChunk
    | DataChunk | MeshChunk | HelperChunk | NodeChunk | FoliageInfoChunk | ControllerChunk

  /** The (type, version) pair each class is registered under, one class at a time. */
  function Registration(c: ChunkClass): (uint32, int)
  {
    match c
    case SourceInfoChunk => (SourceInfoType, 0)
    case TimingChunk => (TimingType, 0x918)
    case MtlNameChunk => (MtlNameType, 0x800)
    case CompiledBonesChunk => (CompiledBonesType, 0x800)
    case CompiledPhysicalBonesChunk => (CompiledPhysicalBonesType, 0x800)
    case CompiledPhysicalProxyChunk => (CompiledPhysicalProxiesType, 0x800)
    case CompiledMorphTargetsChunk => (CompiledMorphTargetsType, 0x800)
    case CompiledIntSkinVerticesChunk => (CompiledIntSkinVerticesType, 0x800)
    case CompiledIntFacesChunk => (CompiledIntFacesType, 0x800)
    case CompiledExtToIntMapChunk => (CompiledExt2IntMapType, 0x800)
    case BonesBoxesChunk => (BonesBoxesType, 0x801)
    case ExportFlagsChunk => (ExportFlagsType, 1)
    case MeshPhysicsDataChunk => (MeshPhysicsDataType, 0x800)
    case MeshSubsetsChunk => (MeshSubsetsType, 0x800)
    case DataChunk => (DataStreamType, 0x800)
    case MeshChunk => (MeshType, 0x800)
    case HelperChunk => (HelperType, 0x744)
    case NodeChunk => (NodeType, 0x823)
    case FoliageInfoChunk => (FoliageInfoType, 1)
    case ControllerChunk => (ControllerType, 0x905)
  }


  /** The arms of a switch over (type, version), first to last. */
  datatype Arms = End | Arm(cls: ChunkClass, rest: Arms)

  /** Each dialect's switch in source order: CryChunks.ReadFrom for
      SynergyLib, CryFile.ReadFrom for WiiU. */
  function ArmsOf(d: Dialect): Arms
  {
    if d.SynergyLib? then
      Arm(SourceInfoChunk, Arm(TimingChunk, Arm(MtlNameChunk, Arm(CompiledBonesChunk, Arm(CompiledPhysicalBonesChunk,
      Arm(CompiledPhysicalProxyChunk, Arm(CompiledMorphTargetsChunk, Arm(CompiledIntSkinVerticesChunk,
      Arm(CompiledIntFacesChunk, Arm(CompiledExtToIntMapChunk, Arm(BonesBoxesChunk, Arm(ExportFlagsChunk,
      Arm(MeshPhysicsDataChunk, Arm(MeshSubsetsChunk, Arm(DataChunk, Arm(MeshChunk, Arm(HelperChunk, Arm(NodeChunk,
      Arm(FoliageInfoChunk, Arm(ControllerChunk, End))))))))))))))))))))
    else
      Arm(MtlNameChunk, Arm(CompiledBonesChunk, Arm(CompiledPhysicalBonesChunk, Arm(CompiledPhysicalProxyChunk,
      Arm(CompiledMorphTargetsChunk, Arm(CompiledIntSkinVerticesChunk, Arm(CompiledIntFacesChunk,
      Arm(CompiledExtToIntMapChunk, Arm(BonesBoxesChunk, Arm(ExportFlagsChunk, Arm(MeshPhysicsDataChunk,
      Arm(MeshSubsetsChunk, Arm(DataChunk, Arm(MeshChunk, Arm(NodeChunk, Arm(ControllerChunk, End))))))))))))))))
  }

  /** Whether some arm instantiates c. */
  predicate Has(arms: Arms, c: ChunkClass)
  {
    arms.Arm? && (arms.cls == c || Has(arms.rest, c))
  }

  /** The classes a dialect's decoder knows: those its switch has an arm
      for. WiiU lacks SourceInfo, Timing, Helper and FoliageInfo. */
  predicate Supports(d: Dialect, c: ChunkClass)
  {
    Has(ArmsOf(d), c)
  }

  /** A switch expression: the class of the first arm whose pattern is
      (t, v); None stands for the discard arm, which throws. */
  function Select(arms: Arms, t: uint32, v: int): (r: Option<ChunkClass>)
    ensures r.Some? ==> Has(arms, r.value) && Registration(r.value) == (t, v)
    ensures r.None? ==> forall c :: Has(arms, c) ==> Registration(c) != (t, v)
  {
    match arms
    case End => None
    case Arm(c, rest) => if Registration(c) == (t, v) then Some(c) else Select(rest, t, v)
  }

  /** The class a dialect's decoder instantiates for a (type, version) pair. */
  function Registry(d: Dialect, t: uint32, v: int): Option<ChunkClass>
  {
    Select(ArmsOf(d), t, v)
  }

  /** Identifies one chunk: the summary-table copy and the copy a chunk
      carries in front of its own payload. */
  datatype ChunkHeader = ChunkHeader(chunkType: uint32, versionRaw: uint32, offset: int, id: int32)

  /** The low 31 bits of VersionRaw. */
  function Version(h: ChunkHeader): int
  {
    h.versionRaw % 0x8000_0000
  }

  /** The high bit of VersionRaw: the payload is big-endian. */
  predicate IsBigEndian(h: ChunkHeader)
  {
    h.versionRaw >= 0x8000_0000
  }

  const HeaderSize := 16

  /** The header as written: type, raw version, offset, id. */
  function HeaderBytes(h: ChunkHeader, be: bool): (r: seq<byte>)
    ensures |r| == HeaderSize
  {
    U32Bytes(h.chunkType, be) + U32Bytes(h.versionRaw, be) + I32Bytes(h.offset, be) + I32Bytes(h.id, be)
  }

  function HeaderOf(b: seq<byte>, be: bool): ChunkHeader
    requires |b| == HeaderSize
  {
    ChunkHeader(U32Of(b[0..4], be), U32Of(b[4..8], be), I32Of(b[8..12], be), I32Of(b[12..16], be))
  }

  /** A summary-table entry (ChunkSizeChunk): a header and the declared size. */
  datatype Entry = Entry(header: ChunkHeader, size: int)

  /** The size of one table entry; products with it are written with the
      literal 20 so that the arithmetic stays linear. */
  const EntrySize := 20

  function EntryBytes(e: Entry, be: bool): (r: seq<byte>)
    ensures |r| == EntrySize
  {
    HeaderBytes(e.header, be) + I32Bytes(e.size, be)
  }

  function EntryOf(b: seq<byte>, be: bool): Entry
    requires |b| == EntrySize
  {
    Entry(HeaderOf(b[..16], be), I32Of(b[16..20], be))
  }

  /** A chunk as its WriteTo emits it: its class, its header, and the
      payload that follows the header, kept as bytes (for a class this model
      decodes, the bytes its WriteTo gives for the object ReadFrom read).
      Every class reads its own header first except SourceInfo, which the
      decoder hands the table's header (CryChunks.cs:62). */
  datatype Chunk = Chunk(cls: ChunkClass, header: ChunkHeader, body: seq<byte>)

  predicate EmbedsHeader(c: ChunkClass)
  {
    !c.SourceInfoChunk?
  }

  function HeaderLength(c: ChunkClass): nat
  {
    if EmbedsHeader(c) then HeaderSize else 0
  }

  function WrittenSize(c: Chunk): nat
  {
    HeaderLength(c.cls) + |c.body|
  }

  /** What a chunk's WriteTo emits: its own header, always little-endian,
      then its payload. */
  function ChunkBytes(c: Chunk): (r: seq<byte>)
    ensures |r| == WrittenSize(c)
  {
    (if EmbedsHeader(c.cls) then HeaderBytes(c.header, false) else []) + c.body
  }

  /** The reader a dialect runs for a class, when this model decodes it. */
  function Decoder(d: Dialect, cls: ChunkClass): Option<ChunkReader>
  {
    match d
    case SynergyLib(node, proxies, morphTargets) =>
      if cls == NodeChunk then Some(node)
      else if cls == CompiledPhysicalProxyChunk then Some(proxies)
      else if cls == CompiledMorphTargetsChunk then Some(morphTargets)
      else None
    case WiiU(physicalBones) =>
      if cls == CompiledPhysicalBonesChunk then Some(physicalBones) else None
  }

  /** The payload a chunk keeps once its bytes `s` are read: what its
      class's ReadFrom gives, or, for a class this model does not decode,
      the bytes after the header as they are. */
  function BodyOf(d: Dialect, cls: ChunkClass, s: seq<byte>): Result<seq<byte>>
    requires HeaderLength(cls) <= |s|
  {
    match Decoder(d, cls)
    case None => Success(s[HeaderLength(cls)..])
    case Some(read) => read(s)
  }

  /** The chunk's ReadFrom at `off` with the declared size: its own header if
      it has one, then the payload, which the class's ReadFrom decodes from
      the declared size of bytes or, for a class this model does not decode,
      is the rest of the declared size; the read must end exactly at
      off + size. */
  function ReadChunk(d: Dialect, cls: ChunkClass, tableHeader: ChunkHeader, data: seq<byte>, off: nat, size: int): Result<Chunk>
  {
    var hl := HeaderLength(cls);
    if EmbedsHeader(cls) && off + HeaderSize > |data| then Failure(EndOfStream)
    else if size < hl then Failure(PositionMismatch(off + size, off + hl))
    else if off + size > |data| then Failure(EndOfStream)
    else
      var h := if EmbedsHeader(cls) then HeaderOf(data[off..off + HeaderSize], false) else tableHeader;
      var body :- BodyOf(d, cls, data[off..off + size]);
      Success(Chunk(cls, h, body))
  }

  // ---------------------------------------------------------------------
  // Ordering by id.

  lemma {:induction false} Inhabited(s: set<int>)
    requires s != {}
    ensures exists k :: k in s
  {
    if forall k :: k !in s {
      assert false;
    }
  }

  lemma {:induction false} MinExists(s: set<int>)
    requires s != {}
    ensures exists k :: k in s && forall y :: y in s ==> k <= y
    decreases |s|
  {
    Inhabited(s);
    var x :| x in s;
    var rest := s - {x};
    if rest != {} {
      MinExists(rest);
      var k :| k in rest && forall y :: y in rest ==> k <= y;
      var m := if x < k then x else k;
      forall y | y in s
        ensures m <= y
      {
        if y != x {
          assert y in rest;
        }
      }
      assert m in s;
    } else {
      forall y | y in s
        ensures x <= y
      {
        assert y !in rest;
      }
    }
  }

  function SetMin(s: set<int>): (k: int)
    requires s != {}
    ensures k in s && forall y :: y in s ==> k <= y
  {
    MinExists(s);
    var k :| k in s && (forall y :: y in s ==> k <= y); k
  }

  lemma {:induction false} MaxExists(s: set<int>)
    requires s != {}
    ensures exists k :: k in s && forall y :: y in s ==> y <= k
    decreases |s|
  {
    Inhabited(s);
    var x :| x in s;
    var rest := s - {x};
    if rest != {} {
      MaxExists(rest);
      var k :| k in rest && forall y :: y in rest ==> y <= k;
      var m := if k < x then x else k;
      forall y | y in s
        ensures y <= m
      {
        if y != x {
          assert y in rest;
        }
      }
      assert m in s;
    } else {
      forall y | y in s
        ensures y <= x
      {
        assert y !in rest;
      }
    }
  }

  function SetMax(s: set<int>): (k: int)
    requires s != {}
    ensures k in s && forall y :: y in s ==> y <= k
  {
    MaxExists(s);
    var k :| k in s && (forall y :: y in s ==> y <= k); k
  }

  /** The keys in ascending order (OrderBy(x => x.Key)). */
  function SortedKeys(s: set<int>): (ks: seq<int>)
    ensures |ks| == |s|
    ensures forall k :: k in ks <==> k in s
    ensures forall i, j :: 0 <= i < j < |ks| ==> ks[i] < ks[j]
    decreases |s|
  {
    if s == {} then []
    else
      var k := SetMin(s);
      var rest := SortedKeys(s - {k});
      MinFirst(k, rest, s);
      [k] + rest
  }

  /** The least key of s before the sorted rest is s sorted. */
  lemma {:induction false} MinFirst(k: int, rest: seq<int>, s: set<int>)
    requires k in s && forall y :: y in s ==> k <= y
    requires |rest| == |s - {k}| && forall x :: x in rest <==> x in s - {k}
    requires forall i, j :: 0 <= i < j < |rest| ==> rest[i] < rest[j]
    ensures |[k] + rest| == |s|
    ensures forall x :: x in [k] + rest <==> x in s
    ensures forall i, j :: 0 <= i < j < |[k] + rest| ==> ([k] + rest)[i] < ([k] + rest)[j]
  {
    var ks := [k] + rest;
    forall i, j | 0 <= i < j < |ks|
      ensures ks[i] < ks[j]
    {
      assert ks[j] == rest[j - 1];
      if i > 0 {
        assert ks[i] == rest[i - 1];
      } else {
        assert rest[j - 1] in rest;
      }
    }
  }

  /** The chunks in ascending key order. */
  function Ordered(m: map<int, Chunk>): (cs: seq<Chunk>)
    ensures |cs| == |m|
  {
    var ks := SortedKeys(m.Keys);
    seq(|ks|, i requires 0 <= i < |ks| => m[ks[i]])
  }

  // ---------------------------------------------------------------------
  // Layout.

  const FileHeaderSize := 24

  /** Where the payload region starts: after the file header and n entries. */
  function TableEnd(n: nat): nat
  {
    FileHeaderSize + n * EntrySize
  }

  function Sizes(cs: seq<Chunk>): (sizes: seq<nat>)
    ensures |sizes| == |cs| && forall i :: 0 <= i < |cs| ==> sizes[i] == WrittenSize(cs[i])
  {
    seq(|cs|, i requires 0 <= i < |cs| => WrittenSize(cs[i]))
  }

  /** The offset of the i-th chunk in id order: the first right after the
      table, each next one after the previous size rounded up to 4. */
  function Offset(sizes: seq<nat>, i: nat): int
    requires i < |sizes|
  {
    if i == 0 then TableEnd(|sizes|) else Offset(sizes, i - 1) + RoundUp4(sizes[i - 1])
  }

  function WithOffset(c: Chunk, off: int): Chunk
  {
    c.(header := c.header.(offset := off))
  }

  /** The chunks in id order with the offsets WriteTo gives them. */
  function Relay(cs: seq<Chunk>): (r: seq<Chunk>)
    ensures |r| == |cs|
  {
    var sizes := Sizes(cs);
    seq(|cs|, i requires 0 <= i < |cs| => WithOffset(cs[i], Offset(sizes, i)))
  }

  /** The dictionary after WriteTo has overwritten every chunk's offset. */
  function Relaid(m: map<int, Chunk>): map<int, Chunk>
  {
    var ks := SortedKeys(m.Keys);
    var rs := Relay(Ordered(m));
    assert |rs| == |ks|;
    assert forall i, j :: 0 <= i < |ks| && 0 <= j < |ks| && ks[i] == ks[j] ==> i == j;
    map i | 0 <= i < |ks| :: ks[i] := rs[i]
  }

  /** The 24-byte file header: magic (with its pad byte), type, version, the
      table offset 20, and the chunk count. */
  function FileHead(t: uint32, v: uint32, n: int, be: bool): (r: seq<byte>)
    ensures |r| == FileHeaderSize
  {
    CryTek + [0] + U32Bytes(t, be) + U32Bytes(v, be) + I32Bytes(20, be) + I32Bytes(n, be)
  }

  /** The summary table: one entry per chunk, its header and WrittenSize. */
  function Table(cs: seq<Chunk>, be: bool): (r: seq<byte>)
    ensures |r| == |cs| * 20
  {
    if cs == [] then []
    else
      var last := cs[|cs| - 1];
      Table(cs[..|cs| - 1], be) + EntryBytes(Entry(last.header, WrittenSize(last)), be)
  }

  /** The entries the table of `cs` records. */
  function Entries(cs: seq<Chunk>): (es: seq<Entry>)
    ensures |es| == |cs|
    ensures forall i :: 0 <= i < |cs| ==> es[i].header == cs[i].header && es[i].size == WrittenSize(cs[i])
  {
    seq(|cs|, i requires 0 <= i < |cs| => Entry(cs[i].header, WrittenSize(cs[i])))
  }

  /** The chunks as SynergyLib's WriteTo emits them from position `start`:
      padding to 4, then the chunk. */
  function Payload(cs: seq<Chunk>, start: nat, be: bool): seq<byte>
  {
    if cs == [] then []
    else
      var init := Payload(cs[..|cs| - 1], start, be);
      init + Zeros(PadTo4(start + |init|)) + ChunkBytes(cs[|cs| - 1])
  }

  /** The bytes a container encodes to: header, table, and the chunks at the
      offsets the table records, with no padding after the last one. */
  function Image(t: uint32, v: uint32, m: map<int, Chunk>, be: bool): seq<byte>
  {
    var rs := Relay(Ordered(m));
    FileHead(t, v, |m|, be) + Table(rs, be) + Payload(rs, TableEnd(|m|), be)
  }

  // ---------------------------------------------------------------------
  // Decoding.

  datatype Head = Head(fileType: uint32, fileVersion: uint32, tableOffset: int32, count: int32)

  /** Magic, type, version, table offset and count, read little-endian from
      p0; the position after the count must be the stored offset plus 4. */
  function DecodeHead(d: Dialect, data: seq<byte>, p0: nat): Result<Head>
  {
    var magic := Magic(d);
    if p0 + |magic| > |data| then Failure(EndOfStream)
    else if data[p0..p0 + |magic|] != magic then Failure(BadMagic)
    else DecodeKind(data, p0 + 8)
  }

  /** The file type and file version at p, each refused unless defined,
      then the table place. */
  function DecodeKind(data: seq<byte>, p: nat): Result<Head>
  {
    if p + 4 > |data| then Failure(EndOfStream)
    else
      var t := U32Of(data[p..p + 4], false);
      if !IsFileType(t) then Failure(BadFileType)
      else if p + 8 > |data| then Failure(EndOfStream)
      else
        var v := U32Of(data[p + 4..p + 8], false);
        if !IsFileVersion(v) then Failure(BadFileVersion)
        else DecodePlace(data, p + 8, t, v)
  }

  /** The stored table offset and the chunk count at p; the position after
      them must be the offset plus 4, and the count must not be negative. */
  function DecodePlace(data: seq<byte>, p: nat, t: uint32, v: uint32): Result<Head>
  {
    if p + 8 > |data| then Failure(EndOfStream)
    else
      var off := I32Of(data[p..p + 4], false);
      var n := I32Of(data[p + 4..p + 8], false);
      if p + 8 != off + 4 then Failure(PositionMismatch(off + 4, p + 8))
      else if n < 0 then Failure(NegativeCount)
      else Success(Head(t, v, off, n))
  }

  /** The n summary-table entries from position p. */
  function ParseTable(data: seq<byte>, p: nat, n: nat): (r: Result<seq<Entry>>)
    ensures r.Success? ==> |r.value| == n
  {
    if p + n * 20 > |data| then Failure(EndOfStream)
    else
      Success(seq(n, i requires 0 <= i < n =>
        EntryOf(data[p + i * 20..p + i * 20 + EntrySize], false)))
  }

  /** One turn of the loading loop: pick the class by exact (type, version),
      seek to the offset, read the declared size, add under the table's id.
      The second component is the reader position afterwards. */
  function LoadOne(d: Dialect, data: seq<byte>, e: Entry, m: map<int, Chunk>): Result<(map<int, Chunk>, nat)>
  {
    LoadAs(d, Registry(d, e.header.chunkType, Version(e.header)), data, e, m)
  }

  /** LoadOne once the registry has answered. */
  function LoadAs(d: Dialect, found: Option<ChunkClass>, data: seq<byte>, e: Entry, m: map<int, Chunk>): Result<(map<int, Chunk>, nat)>
  {
    match found
    case None => Failure(UnsupportedChunk(e.header.chunkType, Version(e.header)))
    case Some(cls) =>
      if e.header.offset < 0 then Failure(ArgumentOutOfRange)
      else
        var c :- ReadChunk(d, cls, e.header, data, e.header.offset, e.size);
        if e.header.id in m then Failure(DuplicateKey(e.header.id))
        else Success((m[e.header.id := c], e.header.offset + e.size))
  }

  /** The loading loop over the entries, from dictionary m and position p. */
  function LoadChunks(d: Dialect, data: seq<byte>, es: seq<Entry>, m: map<int, Chunk>, p: nat): Result<(map<int, Chunk>, nat)>
  {
    if es == [] then Success((m, p))
    else
      var acc :- LoadChunks(d, data, es[..|es| - 1], m, p);
      LoadOne(d, data, es[|es| - 1], acc.0)
  }

  /** The size check: every declared size equals the loaded chunk's WrittenSize. */
  function CheckSizes(es: seq<Entry>, m: map<int, Chunk>): Status
  {
    if es == [] then Done
    else if es[0].header.id !in m || es[0].size != WrittenSize(m[es[0].header.id]) then
      Failure(SizeMismatch(es[0].header.id))
    else CheckSizes(es[1..], m)
  }

  datatype Contents = Contents(fileType: uint32, fileVersion: uint32, chunks: map<int, Chunk>)

  /** ReadFrom on a reader over `data` at p0, into a dictionary holding m:
      the file header, then the rest. */
  function Decode(d: Dialect, data: seq<byte>, p0: nat, canSeek: bool, m: map<int, Chunk>): Result<Contents>
  {
    var h :- DecodeHead(d, data, p0);
    var loaded :- DecodeBody(d, data, p0 + 24, h.count, canSeek, m);
    Success(Contents(h.fileType, h.fileVersion, loaded))
  }

  /** The summary table of `count` entries at p, then the chunks. */
  function DecodeBody(d: Dialect, data: seq<byte>, p: nat, count: nat, canSeek: bool, m: map<int, Chunk>): Result<map<int, Chunk>>
  {
    var es :- ParseTable(data, p, count);
    DecodeChunks(d, data, es, p + count * 20, canSeek, m)
  }

  /** The loading loop from position p, the size check, and, on a seekable
      stream, the check that the reader stands at the end. */
  function DecodeChunks(d: Dialect, data: seq<byte>, es: seq<Entry>, p: nat, canSeek: bool, m: map<int, Chunk>): Result<map<int, Chunk>>
  {
    var loaded :- LoadChunks(d, data, es, m, p);
    var _ :- CheckSizes(es, loaded.0);
    if canSeek && loaded.1 != |data| then Failure(PositionMismatch(|data|, loaded.1))
    else Success(loaded.0)
  }

  // ---------------------------------------------------------------------
  // Facts about the codecs and the layout.

  lemma {:induction false} HeaderRoundTrip(h: ChunkHeader, be: bool)
    requires -0x8000_0000 <= h.offset < 0x8000_0000
    ensures HeaderOf(HeaderBytes(h, be), be) == h
  {
    var b := HeaderBytes(h, be);
    assert b[0..4] == U32Bytes(h.chunkType, be);
    assert b[4..8] == U32Bytes(h.versionRaw, be);
    assert b[8..12] == I32Bytes(h.offset, be);
    assert b[12..16] == I32Bytes(h.id, be);
    U32RoundTrip(h.chunkType, be);
    U32RoundTrip(h.versionRaw, be);
    I32RoundTrip(h.offset, be);
    I32RoundTrip(h.id, be);
  }

  lemma {:induction false} HeaderBytesOf(b: seq<byte>, be: bool)
    requires |b| == HeaderSize
    ensures HeaderBytes(HeaderOf(b, be), be) == b
  {
    U32BytesOf(b[0..4], be);
    U32BytesOf(b[4..8], be);
    I32BytesOf(b[8..12], be);
    I32BytesOf(b[12..16], be);
    assert b == b[0..4] + b[4..8] + b[8..12] + b[12..16];
  }

  lemma {:induction false} EntryRoundTrip(e: Entry, be: bool)
    requires -0x8000_0000 <= e.header.offset < 0x8000_0000
    requires -0x8000_0000 <= e.size < 0x8000_0000
    ensures EntryOf(EntryBytes(e, be), be) == e
  {
    var b := EntryBytes(e, be);
    assert b[..16] == HeaderBytes(e.header, be);
    assert b[16..20] == I32Bytes(e.size, be);
    HeaderRoundTrip(e.header, be);
    I32RoundTrip(e.size, be);
  }

  /** Every offset is 4-aligned and lies past the table; each chunk ends
      before the next begins, with less than 4 bytes of padding between. */
  lemma {:induction false} OffsetFacts(sizes: seq<nat>, i: nat)
    requires i < |sizes|
    ensures Offset(sizes, i) % 4 == 0 && Offset(sizes, i) >= TableEnd(|sizes|)
    ensures i > 0 ==> Offset(sizes, i - 1) + sizes[i - 1] <= Offset(sizes, i) < Offset(sizes, i - 1) + sizes[i - 1] + 4
    decreases i
  {
    if i > 0 {
      OffsetFacts(sizes, i - 1);
      var o, r := Offset(sizes, i - 1), RoundUp4(sizes[i - 1]);
      assert Offset(sizes, i) == o + r;
      assert o >= TableEnd(|sizes|) && o % 4 == 0;
      RoundUp4Bounds(sizes[i - 1]);
      Mod4Add(o, r);
    } else {
      TableEndAligned(|sizes|);
    }
  }

  lemma {:induction false} TableEndAligned(n: nat)
    ensures TableEnd(n) % 4 == 0
  {
    var k := 6 + 5 * n;
    assert TableEnd(n) == 4 * k;
  }

  /** Every offset WriteTo assigns to the chunks fits in an int32: the
      last one does. */
  predicate Addressable(cs: seq<Chunk>)
  {
    |cs| == 0 || Offset(Sizes(cs), |cs| - 1) < 0x8000_0000
  }

  /** The offsets grow, so the last one fits exactly when every one does. */
  lemma {:induction false} AddressableAt(cs: seq<Chunk>, i: nat)
    requires i < |cs|
    ensures 0 <= Offset(Sizes(cs), i)
    ensures Addressable(cs) ==> Offset(Sizes(cs), i) < 0x8000_0000
  {
    OffsetFacts(Sizes(cs), i);
    if i < |cs| - 1 {
      OffsetsOrdered(Sizes(cs), i, |cs| - 1);
    }
  }

  /** Chunks never overlap: an earlier chunk ends before a later one starts,
      so offsets of nonempty chunks strictly increase. */
  lemma {:induction false} OffsetsOrdered(sizes: seq<nat>, i: nat, j: nat)
    requires i < j < |sizes|
    ensures Offset(sizes, i) + sizes[i] <= Offset(sizes, j)
    ensures sizes[i] > 0 ==> Offset(sizes, i) < Offset(sizes, j)
    decreases j - i
  {
    OffsetFacts(sizes, j);
    if i < j - 1 {
      OffsetsOrdered(sizes, i, j - 1);
    }
  }

  lemma {:induction false} PayloadPrefix(cs: seq<Chunk>, start: nat, be: bool, i: nat)
    requires i <= |cs|
    ensures Payload(cs[..i], start, be) <= Payload(cs, start, be)
    decreases |cs|
  {
    if i < |cs| {
      var init := cs[..|cs| - 1];
      assert cs[..i] == init[..i];
      PayloadPrefix(init, start, be, i);
    } else {
      assert cs[..i] == cs;
    }
  }

  /** Writing one more chunk appends its padding and its bytes. */
  lemma {:induction false} PayloadStep(cs: seq<Chunk>, start: nat, be: bool, i: nat)
    requires i < |cs|
    ensures Payload(cs[..i + 1], start, be) ==
      Payload(cs[..i], start, be) + Zeros(PadTo4(start + |Payload(cs[..i], start, be)|)) + ChunkBytes(cs[i])
  {
    assert cs[..i + 1][..i] == cs[..i];
  }

  /** Nothing precedes the first chunk, which sits right after the table. */
  lemma {:induction false} PayloadStart(cs: seq<Chunk>, be: bool)
    requires |cs| > 0
    ensures RoundUp4(TableEnd(|cs|) + |Payload(cs[..0], TableEnd(|cs|), be)|) == Offset(Sizes(cs), 0)
  {
    assert cs[..0] == [];
    OffsetFacts(Sizes(cs), 0);
    RoundUp4Aligned(TableEnd(|cs|));
  }

  /** Padding the end of chunk i - 1 lands on the offset of chunk i. */
  lemma {:induction false} PadLands(sizes: seq<nat>, i: nat, n: nat)
    requires 0 < i < |sizes| && n == Offset(sizes, i - 1) + sizes[i - 1]
    ensures RoundUp4(n) == Offset(sizes, i)
  {
    OffsetFacts(sizes, i - 1);
    RoundUp4Shift(Offset(sizes, i - 1), sizes[i - 1]);
  }

  /** The length added by the k-th chunk: its padding and its WrittenSize. */
  lemma {:induction false} PayloadStepLength(cs: seq<Chunk>, start: nat, be: bool, k: nat)
    requires 0 < k <= |cs|
    ensures |Payload(cs[..k], start, be)| ==
      |Payload(cs[..k - 1], start, be)| + PadTo4(start + |Payload(cs[..k - 1], start, be)|) + WrittenSize(cs[k - 1])
  {
    assert cs[..k][..k - 1] == cs[..k - 1];
  }

  /** The writer's position agrees with the precomputed offsets: padding
      the end of the first i chunks lands exactly on the i-th offset. */
  lemma {:induction false} PayloadPadded(cs: seq<Chunk>, be: bool, i: nat)
    requires i < |cs|
    ensures RoundUp4(TableEnd(|cs|) + |Payload(cs[..i], TableEnd(|cs|), be)|) == Offset(Sizes(cs), i)
    decreases i, 1
  {
    if i == 0 {
      PayloadStart(cs, be);
    } else {
      PayloadEnds(cs, be, i);
      PadLands(Sizes(cs), i, TableEnd(|cs|) + |Payload(cs[..i], TableEnd(|cs|), be)|);
    }
  }

  /** The first k chunks end where the k-th chunk's offset and size say. */
  lemma {:induction false} PayloadEnds(cs: seq<Chunk>, be: bool, k: nat)
    requires 0 < k <= |cs|
    ensures TableEnd(|cs|) + |Payload(cs[..k], TableEnd(|cs|), be)| == Offset(Sizes(cs), k - 1) + WrittenSize(cs[k - 1])
    decreases k, 0
  {
    PayloadPadded(cs, be, k - 1);
    PayloadStepLength(cs, TableEnd(|cs|), be, k);
  }

  /** The bytes written before the i-th chunk, padding included, fill the
      space up to its offset. */
  lemma {:induction false} PayloadLead(cs: seq<Chunk>, be: bool, i: nat)
    requires i < |cs|
    ensures |Payload(cs[..i], TableEnd(|cs|), be) + Zeros(PadTo4(TableEnd(|cs|) + |Payload(cs[..i], TableEnd(|cs|), be)|))|
      == Offset(Sizes(cs), i) - TableEnd(|cs|)
    ensures Offset(Sizes(cs), i) - TableEnd(|cs|) >= 0
  {
    PayloadPadded(cs, be, i);
    OffsetFacts(Sizes(cs), i);
  }

  /** The i-th chunk's bytes follow the padded bytes of the chunks before it. */
  lemma {:induction false} PayloadSplit(cs: seq<Chunk>, be: bool, i: nat)
    requires i < |cs|
    ensures Payload(cs[..i], TableEnd(|cs|), be) + Zeros(PadTo4(TableEnd(|cs|) + |Payload(cs[..i], TableEnd(|cs|), be)|))
      + ChunkBytes(cs[i]) <= Payload(cs, TableEnd(|cs|), be)
  {
    PayloadStep(cs, TableEnd(|cs|), be, i);
    PayloadPrefix(cs, TableEnd(|cs|), be, i + 1);
  }

  /** The i-th chunk's bytes sit at its offset (counted from the start of
      the payload region). */
  lemma {:induction false} PayloadSlice(cs: seq<Chunk>, be: bool, i: nat)
    requires i < |cs|
    ensures At(Payload(cs, TableEnd(|cs|), be), Offset(Sizes(cs), i) - TableEnd(|cs|), ChunkBytes(cs[i]))
  {
    PayloadLead(cs, be, i);
    PayloadSplit(cs, be, i);
    assert Payload(cs[..i], TableEnd(|cs|), be) + Zeros(PadTo4(TableEnd(|cs|) + |Payload(cs[..i], TableEnd(|cs|), be)|))
      + ChunkBytes(cs[i]) <= Payload(cs, TableEnd(|cs|), be);
    assert Offset(Sizes(cs), i) - TableEnd(|cs|) == |Payload(cs[..i], TableEnd(|cs|), be) + Zeros(PadTo4(TableEnd(|cs|) + |Payload(cs[..i], TableEnd(|cs|), be)|))|;
    AtPrefix<byte>(Payload(cs, TableEnd(|cs|), be),
      Payload(cs[..i], TableEnd(|cs|), be) + Zeros(PadTo4(TableEnd(|cs|) + |Payload(cs[..i], TableEnd(|cs|), be)|)),
      ChunkBytes(cs[i]));
  }

  /** The payload ends where its last chunk ends. */
  lemma {:induction false} PayloadLength(cs: seq<Chunk>, be: bool)
    requires |cs| > 0
    ensures TableEnd(|cs|) + |Payload(cs, TableEnd(|cs|), be)| == Offset(Sizes(cs), |cs| - 1) + WrittenSize(cs[|cs| - 1])
  {
    PayloadEnds(cs, be, |cs|);
    assert cs[..|cs|] == cs;
  }

  /** A container whose image fits an int32 has every offset in an int32,
      and so has the same container once relaid. */
  lemma {:induction false} ImageAddressable(t: uint32, v: uint32, m: map<int, Chunk>, be: bool)
    requires |Image(t, v, m, be)| < 0x8000_0000
    ensures Addressable(Relay(Ordered(m))) && Addressable(Relay(Ordered(Relaid(m))))
  {
    ImageFits(t, v, m, be);
    RelaidLaidOut(m);
  }

  /** The last offset of a container lies inside its image. */
  lemma {:induction false} ImageFits(t: uint32, v: uint32, m: map<int, Chunk>, be: bool)
    requires |Image(t, v, m, be)| < 0x8000_0000
    ensures Addressable(Relay(Ordered(m)))
  {
    var rs := Relay(Ordered(m));
    assert |rs| == |m|;
    ImageLength(t, v, m, be);
    AddressableWithin(rs, |Image(t, v, m, be)|);
  }

  /** Chunks that all end within `len` bytes, fewer than 2^31, are
      addressable. */
  lemma {:induction false} AddressableWithin(cs: seq<Chunk>, len: int)
    requires |cs| > 0 ==> Offset(Sizes(cs), |cs| - 1) + WrittenSize(cs[|cs| - 1]) == len
    requires len < 0x8000_0000
    ensures Addressable(cs)
  {
  }

  /** Laying out a relaid container again changes nothing. */
  lemma {:induction false} RelaidLaidOut(m: map<int, Chunk>)
    ensures Relay(Ordered(Relaid(m))) == Relay(Ordered(m))
  {
    OrderedRelaid(m);
    RelayIdempotent(Ordered(m));
  }

  /** The length of the whole image: it ends where the last chunk ends. */
  lemma {:induction false} ImageLength(t: uint32, v: uint32, m: map<int, Chunk>, be: bool)
    ensures var rs := Relay(Ordered(m));
      |Image(t, v, m, be)| == if |m| == 0 then FileHeaderSize
        else Offset(Sizes(rs), |m| - 1) + WrittenSize(rs[|m| - 1])
  {
    var rs := Relay(Ordered(m));
    if |m| > 0 {
      PayloadLength(rs, be);
    }
  }

  /** An empty container encodes to exactly the 24-byte header. */
  lemma {:induction false} EmptyImage(t: uint32, v: uint32, be: bool)
    ensures Image(t, v, map[], be) == FileHead(t, v, 0, be)
    ensures |Image(t, v, map[], be)| == 24
  {
  }

  lemma {:induction false} RelayKeepsSizes(cs: seq<Chunk>)
    ensures Sizes(Relay(cs)) == Sizes(cs)
  {
    var rs := Relay(cs);
    forall i | 0 <= i < |cs|
      ensures WrittenSize(rs[i]) == WrittenSize(cs[i])
    {
    }
  }

  /** Laying out twice is laying out once. */
  lemma {:induction false} RelayIdempotent(cs: seq<Chunk>)
    ensures Relay(Relay(cs)) == Relay(cs)
  {
    RelayKeepsSizes(cs);
  }

  lemma {:induction false} RelaidKeys(m: map<int, Chunk>)
    ensures Relaid(m).Keys == m.Keys
    ensures |Relaid(m)| == |m|
  {
    var ks := SortedKeys(m.Keys);
    var r := Relaid(m);
    forall k | k in m
      ensures k in r
    {
      assert k in ks;
      var i :| 0 <= i < |ks| && ks[i] == k;
      assert ks[i] in r;
    }
  }

  lemma {:induction false} RelaidAt(m: map<int, Chunk>, i: nat)
    requires i < |m|
    ensures SortedKeys(m.Keys)[i] in Relaid(m)
    ensures Relaid(m)[SortedKeys(m.Keys)[i]] == Relay(Ordered(m))[i]
  {
  }

  lemma {:induction false} OrderedRelaid(m: map<int, Chunk>)
    ensures Ordered(Relaid(m)) == Relay(Ordered(m))
  {
    RelaidKeys(m);
    forall i | 0 <= i < |m|
      ensures Ordered(Relaid(m))[i] == Relay(Ordered(m))[i]
    {
      RelaidAt(m, i);
    }
  }

  /** Re-encoding a container that has already been written gives the same bytes. */
  lemma {:induction false} ImageRelaid(t: uint32, v: uint32, m: map<int, Chunk>, be: bool)
    ensures Image(t, v, Relaid(m), be) == Image(t, v, m, be)
  {
    OrderedRelaid(m);
    RelayIdempotent(Ordered(m));
    RelaidKeys(m);
  }

  /** Laying out a laid-out dictionary changes nothing. */
  lemma {:induction false} RelaidIdempotent(m: map<int, Chunk>)
    ensures Relaid(Relaid(m)) == Relaid(m)
  {
    RelaidKeys(m);
    OrderedRelaid(m);
    RelayIdempotent(Ordered(m));
  }
}
