/** What ReadFrom makes of the bytes WriteTo lays out: the registries
    agree with the class registrations, and decoding an image gives back the
    container with the offsets the writer assigned. */
module CryRoundTrip {
  import opened Outcomes
  import opened Binary
  import opened CryLayout

  // ---------------------------------------------------------------------
  // The registries.

  /** No two classes share a (type, version) pair: the type codes alone differ. */
  lemma {:induction false} RegistrationInjective(c1: ChunkClass, c2: ChunkClass)
    requires Registration(c1).0 == Registration(c2).0
    ensures c1 == c2
  {
  }

  /** A dialect's registry answers a class exactly for the (type, version)
      pair that class is registered under, and only for classes it knows. */
  lemma {:induction false} RegistryExact(d: Dialect, t: uint32, v: int, c: ChunkClass)
    ensures Registry(d, t, v) == Some(c) <==> Supports(d, c) && Registration(c) == (t, v)
  {
    match Registry(d, t, v)
    case None =>
    case Some(c2) =>
      if Registration(c) == (t, v) {
        RegistrationInjective(c, c2);
      }
  }

  /** A pair no class is registered under is refused by both dialects. */
  lemma {:induction false} UnknownPairRefused(d: Dialect, t: uint32, v: int)
    requires forall c: ChunkClass :: Registration(c) != (t, v)
    ensures Registry(d, t, v) == None
  {
    match Registry(d, t, v)
    case None =>
    case Some(c) =>
      RegistryExact(d, t, v, c);
      assert false;
  }

  // ---------------------------------------------------------------------
  // Chunks read back.

  /** A chunk that its class's ReadFrom gives back unchanged from the bytes
      its WriteTo emits: always so for a class this model does not decode
      (RereadsUndecoded); for NodeChunk, for instance, only when the stored
      position survives ReadFrom's division by 100. */
  predicate Rereads(d: Dialect, c: Chunk)
  {
    BodyOf(d, c.cls, ChunkBytes(c)) == Success(c.body)
  }

  lemma {:induction false} RereadsUndecoded(d: Dialect, c: Chunk)
    requires Decoder(d, c.cls).None?
    ensures Rereads(d, c)
  {
    assert ChunkBytes(c)[HeaderLength(c.cls)..] == c.body;
  }

  /** ReadChunk reads back a chunk from the bytes ChunkBytes gives it
      exactly when the chunk rereads. The table header stands in for the
      header SourceInfo does not embed. */
  lemma {:induction false} ReadChunkOfBytes(d: Dialect, c: Chunk, tableHeader: ChunkHeader, data: seq<byte>, off: nat)
    requires off + WrittenSize(c) <= |data|
    requires data[off..off + WrittenSize(c)] == ChunkBytes(c)
    requires EmbedsHeader(c.cls) ==> -0x8000_0000 <= c.header.offset < 0x8000_0000
    requires !EmbedsHeader(c.cls) ==> tableHeader == c.header
    ensures ReadChunk(d, c.cls, tableHeader, data, off, WrittenSize(c)) == Success(c) <==> Rereads(d, c)
  {
    if EmbedsHeader(c.cls) {
      assert data[off..off + HeaderSize] == ChunkBytes(c)[..HeaderSize];
      HeaderRoundTrip(c.header, false);
    }
  }

  /** Whatever ReadChunk accepts is a chunk of the requested class within
      the data, with the header it read (or the table's); for a class this
      model does not decode it has the declared size and re-encodes to
      exactly the bytes it was read from, and for a decoded class it holds
      what the class's ReadFrom gave for those bytes. */
  lemma {:induction false} ReadChunkSound(d: Dialect, cls: ChunkClass, tableHeader: ChunkHeader, data: seq<byte>, off: nat, size: int)
    requires ReadChunk(d, cls, tableHeader, data, off, size).Success?
    ensures HeaderLength(cls) <= size && off + size <= |data|
    ensures var c := ReadChunk(d, cls, tableHeader, data, off, size).value;
      c.cls == cls
      && (EmbedsHeader(cls) ==> c.header == HeaderOf(data[off..off + HeaderSize], false))
      && (!EmbedsHeader(cls) ==> c.header == tableHeader)
      && (Decoder(d, cls).None? ==> WrittenSize(c) == size && ChunkBytes(c) == data[off..off + size])
      && (Decoder(d, cls).Some? ==> Decoder(d, cls).value(data[off..off + size]) == Success(c.body))
  {
    var c := ReadChunk(d, cls, tableHeader, data, off, size).value;
    if EmbedsHeader(cls) && Decoder(d, cls).None? {
      HeaderBytesOf(data[off..off + HeaderSize], false);
      assert data[off..off + size] == data[off..off + HeaderSize] + data[off + HeaderSize..off + size];
    }
  }

  // ---------------------------------------------------------------------
  // The size check.

  /** The size check passes exactly when every entry's id was loaded and
      its declared size is the loaded chunk's WrittenSize. */
  lemma {:induction false} CheckSizesIff(es: seq<Entry>, m: map<int, Chunk>)
    ensures CheckSizes(es, m) == Done <==>
      forall i :: 0 <= i < |es| ==> es[i].header.id in m && es[i].size == WrittenSize(m[es[i].header.id])
    decreases |es|
  {
    if es != [] {
      CheckSizesIff(es[1..], m);
      assert forall i :: 1 <= i < |es| ==> es[i] == es[1..][i - 1];
    }
  }

  // ---------------------------------------------------------------------
  // The pieces of an image.

  /** The five fields of the file header. */
  lemma {:induction false} FileHeadFields(t: uint32, v: uint32, n: int, be: bool)
    ensures FileHead(t, v, n, be)[..8] == CryTek + [0]
    ensures FileHead(t, v, n, be)[8..12] == U32Bytes(t, be)
    ensures FileHead(t, v, n, be)[12..16] == U32Bytes(v, be)
    ensures FileHead(t, v, n, be)[16..20] == I32Bytes(20, be)
    ensures FileHead(t, v, n, be)[20..24] == I32Bytes(n, be)
  {
  }

  /** The i-th table entry holds the i-th chunk's header and WrittenSize. */
  lemma {:induction false} TableAt(cs: seq<Chunk>, be: bool, i: nat)
    requires i < |cs|
    ensures Table(cs, be)[i * 20..i * 20 + EntrySize] == EntryBytes(Entry(cs[i].header, WrittenSize(cs[i])), be)
    decreases |cs|
  {
    var init := cs[..|cs| - 1];
    if i < |cs| - 1 {
      TableAt(init, be, i);
      assert Table(init, be) <= Table(cs, be);
      SliceOfPrefix(Table(init, be), Table(cs, be), i * 20, i * 20 + EntrySize);
    } else {
      assert Table(init, be) + EntryBytes(Entry(cs[i].header, WrittenSize(cs[i])), be) == Table(cs, be);
      SliceAfter(Table(cs, be), Table(init, be), EntryBytes(Entry(cs[i].header, WrittenSize(cs[i])), be), i * 20);
    }
  }

  /** Relay records each chunk's offset in its own header. */
  lemma {:induction false} RelayOffset(cs: seq<Chunk>, i: nat)
    requires i < |cs|
    ensures Relay(cs)[i].header.offset == Offset(Sizes(Relay(cs)), i)
    ensures TableEnd(|cs|) <= Relay(cs)[i].header.offset
  {
    RelayKeepsSizes(cs);
    OffsetFacts(Sizes(cs), i);
  }

  /** The offset a chunk's own header records. */
  function OwnOffset(c: Chunk): int
  {
    c.header.offset
  }

  /** Every chunk records in its own header the offset the layout gives it. */
  predicate Placed(cs: seq<Chunk>)
  {
    forall j {:trigger OwnOffset(cs[j])} :: 0 <= j < |cs| ==> OwnOffset(cs[j]) == Offset(Sizes(cs), j)
  }

  lemma {:induction false} RelayPlaced(cs: seq<Chunk>)
    ensures Placed(Relay(cs))
  {
    forall j | 0 <= j < |cs|
      ensures OwnOffset(Relay(cs)[j]) == Offset(Sizes(Relay(cs)), j)
    {
      RelayOffset(cs, j);
    }
  }

  /** An image is its header and table, then the payload. */
  lemma {:induction false} ImageParts(t: uint32, v: uint32, m: map<int, Chunk>, rs: seq<Chunk>)
    requires rs == Relay(Ordered(m))
    ensures Image(t, v, m, false) == (FileHead(t, v, |rs|, false) + Table(rs, false)) + Payload(rs, TableEnd(|rs|), false)
    ensures |FileHead(t, v, |rs|, false) + Table(rs, false)| == TableEnd(|rs|)
  {
  }


  /** Behind `head` bytes of header and table, the i-th chunk's bytes sit at
      its offset, whatever follows the payload. */
  lemma {:induction false} ChunkInPayload(head: seq<byte>, rs: seq<Chunk>, tail: seq<byte>, i: nat)
    requires |head| == TableEnd(|rs|) && i < |rs|
    ensures At(head + Payload(rs, TableEnd(|rs|), false) + tail,
      |head| + (Offset(Sizes(rs), i) - TableEnd(|rs|)), ChunkBytes(rs[i]))
  {
    PayloadSlice(rs, false, i);
    AtBehind(head, Payload(rs, TableEnd(|rs|), false), tail, ChunkBytes(rs[i]), Offset(Sizes(rs), i) - TableEnd(|rs|));
  }

  // ---------------------------------------------------------------------
  // Decoding laid-out bytes.

  /** A chunk the dialect's registry maps back to its own class. */
  predicate Registered(d: Dialect, c: Chunk)
  {
    Supports(d, c.cls) && Registration(c.cls) == (c.header.chunkType, Version(c.header))
  }

  /** Ids strictly increase along the sequence. */
  predicate Increasing(rs: seq<Chunk>)
  {
    forall i, j :: 0 <= i < j < |rs| ==> rs[i].header.id < rs[j].header.id
  }

  /** What the reader can get back: a registered chunk whose offset and
      size fit an int32, encoded at its own offset in `data`. */
  ghost predicate LaidOutAt(d: Dialect, data: seq<byte>, c: Chunk)
  {
    Registered(d, c) && Rereads(d, c) && 0 <= c.header.offset && c.header.offset + WrittenSize(c) < 0x8000_0000
    && At(data, c.header.offset, ChunkBytes(c))
  }

  ghost predicate LaidOut(d: Dialect, data: seq<byte>, rs: seq<Chunk>)
  {
    forall i :: 0 <= i < |rs| ==> LaidOutAt(d, data, rs[i])
  }

  /** The dictionary after adding the first k chunks under their ids. */
  function ById(rs: seq<Chunk>, k: nat): (r: map<int, Chunk>)
    requires k <= |rs|
    ensures forall j :: 0 <= j < k ==> rs[j].header.id in r
  {
    if k == 0 then map[] else ById(rs, k - 1)[rs[k - 1].header.id := rs[k - 1]]
  }

  /** With increasing ids, the dictionary holds no id beyond the last
      added, and each chunk under its own id. */
  lemma {:induction false} ByIdValues(rs: seq<Chunk>, k: nat)
    requires Increasing(rs) && k <= |rs|
    ensures forall id :: id in ById(rs, k) ==> k > 0 && id <= rs[k - 1].header.id
    ensures forall j :: 0 <= j < k ==> ById(rs, k)[rs[j].header.id] == rs[j]
  {
    if k > 0 {
      ByIdValues(rs, k - 1);
    }
  }

  /** Where the reader stands after loading the first k chunks from p. */
  function EndOf(rs: seq<Chunk>, k: nat, p: int): int
    requires k <= |rs|
  {
    if k == 0 then p else rs[k - 1].header.offset + WrittenSize(rs[k - 1])
  }

  /** The fields of a file header found at the start of `data`. */
  lemma {:induction false} FileHeadAt(data: seq<byte>, t: uint32, v: uint32, n: int)
    requires At(data, 0, FileHead(t, v, n, false))
    ensures 24 <= |data|
    ensures data[0..8] == CryTek + [0]
    ensures data[8..12] == U32Bytes(t, false) && data[12..16] == U32Bytes(v, false)
    ensures data[16..20] == I32Bytes(20, false) && data[20..24] == I32Bytes(n, false)
  {
    FileHeadFields(t, v, n, false);
    AtSlice(data, 0, FileHead(t, v, n, false));
    assert data[0..8] == data[0..24][0..8];
    assert data[8..12] == data[0..24][8..12];
    assert data[12..16] == data[0..24][12..16];
    assert data[16..20] == data[0..24][16..20];
    assert data[20..24] == data[0..24][20..24];
  }

  /** The file header is read back: magic, type, version, table offset 20
      and the count, in either dialect. */
  lemma {:induction false} DecodeHeadAt(d: Dialect, data: seq<byte>, t: uint32, v: uint32, n: int)
    requires At(data, 0, FileHead(t, v, n, false))
    requires IsFileType(t) && IsFileVersion(v) && 0 <= n < 0x8000_0000
    ensures DecodeHead(d, data, 0) == Success(Head(t, v, 20, n))
  {
    FileHeadAt(data, t, v, n);
    assert data[0..|Magic(d)|] == Magic(d) by {
      assert data[0..|Magic(d)|] == data[0..8][..|Magic(d)|];
    }
    U32RoundTrip(t, false);
    U32RoundTrip(v, false);
    I32RoundTrip(20, false);
    I32RoundTrip(n, false);
  }

  /** An entry is read back from its bytes wherever they occur. */
  lemma {:induction false} EntryAt(data: seq<byte>, q: int, e: Entry)
    requires At(data, q, EntryBytes(e, false))
    requires -0x8000_0000 <= e.header.offset < 0x8000_0000 && -0x8000_0000 <= e.size < 0x8000_0000
    ensures 0 <= q && q + EntrySize <= |data| && EntryOf(data[q..q + EntrySize], false) == e
  {
    AtSlice(data, q, EntryBytes(e, false));
    EntryRoundTrip(e, false);
  }

  /** The entries of `rs`, each encoded at its place in a table at p. */
  ghost predicate TableLaidOut(data: seq<byte>, p: nat, rs: seq<Chunk>)
  {
    p + |rs| * 20 <= |data|
    && forall i :: 0 <= i < |rs| ==> At(data, p + i * 20, EntryBytes(Entries(rs)[i], false))
  }

  /** Offsets and declared sizes that fit the table's int32 fields. */
  predicate Int32Fields(rs: seq<Chunk>)
  {
    forall i :: 0 <= i < |rs| ==>
      -0x8000_0000 <= rs[i].header.offset < 0x8000_0000 && WrittenSize(rs[i]) < 0x8000_0000
  }

  /** The table is read back as the chunks' headers and sizes. */
  lemma {:induction false} ParseTableAt(data: seq<byte>, rs: seq<Chunk>, p: nat)
    requires TableLaidOut(data, p, rs) && Int32Fields(rs)
    ensures ParseTable(data, p, |rs|) == Success(Entries(rs))
  {
    forall i | 0 <= i < |rs|
      ensures EntryOf(data[p + i * 20..p + i * 20 + EntrySize], false) == Entries(rs)[i]
    {
      EntryAt(data, p + i * 20, Entries(rs)[i]);
    }
    assert ParseTable(data, p, |rs|).value == Entries(rs);
  }

  /** A registered chunk's (type, version) pair selects its own class. */
  lemma {:induction false} RegisteredClass(d: Dialect, c: Chunk)
    requires Registered(d, c)
    ensures Registry(d, c.header.chunkType, Version(c.header)) == Some(c.cls)
  {
    RegistryExact(d, c.header.chunkType, Version(c.header), c.cls);
  }

  /** A laid-out chunk is read back at its offset with its size. */
  lemma {:induction false} ReadLaidOut(d: Dialect, data: seq<byte>, c: Chunk)
    requires LaidOutAt(d, data, c)
    ensures ReadChunk(d, c.cls, c.header, data, c.header.offset, WrittenSize(c)) == Success(c)
  {
    AtSlice(data, c.header.offset, ChunkBytes(c));
    ReadChunkOfBytes(d, c, c.header, data, c.header.offset);
  }

  /** One turn of the loading loop reads a laid-out chunk back and adds
      it under its new id. */
  lemma {:induction false} LoadOneLaidOut(d: Dialect, data: seq<byte>, e: Entry, m: map<int, Chunk>, c: Chunk)
    requires LaidOutAt(d, data, c) && e == Entry(c.header, WrittenSize(c)) && c.header.id !in m
    ensures LoadOne(d, data, e, m) == Success((m[c.header.id := c], c.header.offset + WrittenSize(c)))
  {
    assert Registry(d, c.header.chunkType, Version(c.header)) == Some(c.cls) by {
      RegisteredClass(d, c);
    }
    assert ReadChunk(d, c.cls, c.header, data, c.header.offset, WrittenSize(c)) == Success(c) by {
      ReadLaidOut(d, data, c);
    }
    LoadOneRead(d, data, e, m, c);
  }

  lemma {:induction false} LoadOneRead(d: Dialect, data: seq<byte>, e: Entry, m: map<int, Chunk>, c: Chunk)
    requires e == Entry(c.header, WrittenSize(c)) && c.header.id !in m && 0 <= c.header.offset
    requires Registry(d, c.header.chunkType, Version(c.header)) == Some(c.cls)
    requires ReadChunk(d, c.cls, c.header, data, c.header.offset, WrittenSize(c)) == Success(c)
    ensures LoadOne(d, data, e, m) == Success((m[c.header.id := c], c.header.offset + WrittenSize(c)))
  {
    assert LoadOne(d, data, e, m) == LoadAs(d, Some(c.cls), data, e, m);
    LoadAsRead(d, c.cls, data, e, m, c);
  }

  /** LoadAs with the chunk's class reads it back and adds it. */
  lemma {:induction false} LoadAsRead(d: Dialect, cls: ChunkClass, data: seq<byte>, e: Entry, m: map<int, Chunk>, c: Chunk)
    requires e == Entry(c.header, WrittenSize(c)) && c.header.id !in m && 0 <= c.header.offset
    requires ReadChunk(d, cls, c.header, data, c.header.offset, WrittenSize(c)) == Success(c)
    ensures LoadAs(d, Some(cls), data, e, m) == Success((m[c.header.id := c], c.header.offset + WrittenSize(c)))
  {
  }

  /** The loading loop ends in the last of the states ms/qs when each turn
      takes one state to the next. */
  lemma {:induction false} LoadChunksSteps(d: Dialect, data: seq<byte>, es: seq<Entry>, p: nat, ms: seq<map<int, Chunk>>, qs: seq<int>, m: map<int, Chunk>, q: int)
    requires |ms| == |qs| == |es| + 1 && ms[0] == map[] && qs[0] == p && ms[|es|] == m && qs[|es|] == q
    requires forall i :: 0 <= i < |es| ==> LoadOne(d, data, es[i], ms[i]) == Success((ms[i + 1], qs[i + 1]))
    ensures LoadChunks(d, data, es, map[], p) == Success((m, q))
    decreases |es|
  {
    if es != [] {
      LoadChunksSteps(d, data, es[..|es| - 1], p, ms[..|es|], qs[..|es|], ms[|es| - 1], qs[|es| - 1]);
    }
  }

  /** Turn i of the loading loop adds the i-th laid-out chunk. */
  lemma {:induction false} LoadTurn(d: Dialect, data: seq<byte>, rs: seq<Chunk>, p: nat, i: nat)
    requires Increasing(rs) && LaidOut(d, data, rs) && i < |rs|
    ensures LoadOne(d, data, Entries(rs)[i], ById(rs, i)) == Success((ById(rs, i + 1), EndOf(rs, i + 1, p)))
  {
    var c := rs[i];
    assert LaidOutAt(d, data, c);
    FreshId(rs, i);
    var e := Entries(rs)[i];
    assert e == Entry(c.header, WrittenSize(c));
    var m := ById(rs, i);
    assert ById(rs, i + 1) == m[c.header.id := c];
    assert EndOf(rs, i + 1, p) == c.header.offset + WrittenSize(c);
    LoadOneLaidOut(d, data, e, m, c);
  }

  /** With increasing ids, the next chunk's id is not yet in the dictionary. */
  lemma {:induction false} FreshId(rs: seq<Chunk>, i: nat)
    requires Increasing(rs) && i < |rs|
    ensures rs[i].header.id !in ById(rs, i)
  {
    ByIdValues(rs, i);
    if i > 0 {
      assert rs[i - 1].header.id < rs[i].header.id;
    }
  }

  /** Every turn of the loading loop over the table of rs adds the next
      chunk under its id and moves to its end. */
  ghost predicate Turns(d: Dialect, data: seq<byte>, rs: seq<Chunk>, p: nat)
  {
    forall i :: 0 <= i < |rs| ==> LoadOne(d, data, Entries(rs)[i], ById(rs, i)) == Success((ById(rs, i + 1), EndOf(rs, i + 1, p)))
  }

  lemma {:induction false} TurnsLaidOut(d: Dialect, data: seq<byte>, rs: seq<Chunk>, p: nat)
    requires Increasing(rs) && LaidOut(d, data, rs)
    ensures Turns(d, data, rs, p)
  {
    forall i | 0 <= i < |rs|
      ensures LoadOne(d, data, Entries(rs)[i], ById(rs, i)) == Success((ById(rs, i + 1), EndOf(rs, i + 1, p)))
    {
      LoadTurn(d, data, rs, p, i);
    }
  }

  /** The loading loop over the table of rs, when every turn succeeds,
      loads each chunk under its id and leaves the reader at the end of
      the last. */
  lemma {:induction false} LoadLaidOut(d: Dialect, data: seq<byte>, rs: seq<Chunk>, p: nat)
    requires Turns(d, data, rs, p)
    ensures LoadChunks(d, data, Entries(rs), map[], p) == Success((ById(rs, |rs|), EndOf(rs, |rs|, p)))
  {
    var ms := seq(|rs| + 1, i requires 0 <= i <= |rs| => ById(rs, i));
    var qs := seq(|rs| + 1, i requires 0 <= i <= |rs| => EndOf(rs, i, p));
    LoadChunksSteps(d, data, Entries(rs), p, ms, qs, ById(rs, |rs|), EndOf(rs, |rs|, p));
  }

  // ---------------------------------------------------------------------
  // Decoding an image.

  /** The entry of chunk i sits in the table behind the 24-byte file header,
      whatever follows the table. */
  lemma {:induction false} EntryInImage(head: seq<byte>, rs: seq<Chunk>, payload: seq<byte>, tail: seq<byte>, i: nat)
    requires |head| == FileHeaderSize && i < |rs|
    ensures At(head + Table(rs, false) + payload + tail, FileHeaderSize + i * 20, EntryBytes(Entries(rs)[i], false))
  {
    TableAt(rs, false, i);
    AtOfSlice(Table(rs, false), i * 20, EntryBytes(Entries(rs)[i], false));
    AtFront(head, Table(rs, false), EntryBytes(Entries(rs)[i], false), i * 20);
    AtBack(head + Table(rs, false), payload, EntryBytes(Entries(rs)[i], false), |head| + i * 20);
    AtBack(head + Table(rs, false) + payload, tail, EntryBytes(Entries(rs)[i], false), |head| + i * 20);
  }

  lemma {:induction false} TableInImage(head: seq<byte>, rs: seq<Chunk>, payload: seq<byte>, tail: seq<byte>)
    requires |head| == FileHeaderSize
    ensures TableLaidOut(head + Table(rs, false) + payload + tail, FileHeaderSize, rs)
  {
    forall i | 0 <= i < |rs|
      ensures At(head + Table(rs, false) + payload + tail, FileHeaderSize + i * 20, EntryBytes(Entries(rs)[i], false))
    {
      EntryInImage(head, rs, payload, tail, i);
    }
  }

  /** The file header sits at the start of the image. */
  lemma {:induction false} HeadInImage(head: seq<byte>, table: seq<byte>, payload: seq<byte>, tail: seq<byte>)
    ensures At(head + table + payload + tail, 0, head)
  {
    AtSelf(head);
    AtBack(head, table, head, 0);
    AtBack(head + table, payload, head, 0);
    AtBack(head + table + payload, tail, head, 0);
  }

  /** What a container must hold for its image to decode: every chunk is
      stored under its own id, and the dialect's registry maps its type and
      version back to its class. AddChunkLE and AddChunkBE keep the first
      part; the reader establishes both. */
  predicate Writable(d: Dialect, m: map<int, Chunk>)
  {
    forall k :: k in m ==> m[k].header.id == k && Registered(d, m[k])
  }

  /** Every chunk of the container, with the offset the writer gives it,
      rereads: its class's ReadFrom gives back what its WriteTo emits. */
  ghost predicate Stable(d: Dialect, m: map<int, Chunk>)
  {
    forall k {:trigger Rereads(d, Relaid(m)[k])} :: k in Relaid(m) ==> Rereads(d, Relaid(m)[k])
  }

  lemma {:induction false} StableAt(d: Dialect, m: map<int, Chunk>, i: nat)
    requires Stable(d, m) && i < |m|
    ensures Rereads(d, Relay(Ordered(m))[i])
  {
    RelaidAt(m, i);
  }

  /** The laid-out chunks of a writable container carry the sorted keys as
      ids and stay registered. */
  lemma {:induction false} RelaidIds(d: Dialect, m: map<int, Chunk>, i: nat)
    requires Writable(d, m) && i < |m|
    ensures |SortedKeys(m.Keys)| == |m|
    ensures Relay(Ordered(m))[i].header.id == SortedKeys(m.Keys)[i]
    ensures Registered(d, Relay(Ordered(m))[i])
  {
    assert SortedKeys(m.Keys)[i] in SortedKeys(m.Keys);
  }

  lemma {:induction false} RelaidIncreasing(d: Dialect, m: map<int, Chunk>)
    requires Writable(d, m)
    ensures Increasing(Relay(Ordered(m)))
  {
    forall i, j | 0 <= i < j < |m|
      ensures Relay(Ordered(m))[i].header.id < Relay(Ordered(m))[j].header.id
    {
      RelaidIds(d, m, i);
      RelaidIds(d, m, j);
    }
  }

  /** A chunk found in the payload, past a head as long as the table end,
      is laid out where its offset says. */
  lemma {:induction false} LaidFromPayload(d: Dialect, whole: seq<byte>, c: Chunk, hl: nat, te: nat, o: nat, size: nat, last: int)
    requires Registered(d, c) && Rereads(d, c) && c.header.offset == o && hl == te && te <= o
    requires size == WrittenSize(c) && o + size <= last < 0x8000_0000
    requires At(whole, hl + (o - te), ChunkBytes(c))
    ensures LaidOutAt(d, whole, c)
  {
  }

  /** Every chunk lies between the table and the end of the last chunk. */
  lemma {:induction false} ChunkWithin(sizes: seq<nat>, i: nat)
    requires i < |sizes|
    ensures TableEnd(|sizes|) <= Offset(sizes, i)
    ensures Offset(sizes, i) + sizes[i] <= Offset(sizes, |sizes| - 1) + sizes[|sizes| - 1]
  {
    OffsetFacts(sizes, i);
    if i < |sizes| - 1 {
      OffsetsOrdered(sizes, i, |sizes| - 1);
    }
  }

  /** An image that fits an int32, followed by anything, holds the laid-out
      chunks where the reader looks for them. */
  lemma {:induction false} ChunksInImage(d: Dialect, t: uint32, v: uint32, m: map<int, Chunk>, tail: seq<byte>)
    requires Writable(d, m) && Stable(d, m) && |Image(t, v, m, false)| < 0x8000_0000
    ensures LaidOut(d, FileHead(t, v, |m|, false) + Table(Relay(Ordered(m)), false)
      + Payload(Relay(Ordered(m)), TableEnd(|m|), false) + tail, Relay(Ordered(m)))
    ensures Int32Fields(Relay(Ordered(m)))
  {
    var rs := Relay(Ordered(m));
    var sizes, te := Sizes(rs), TableEnd(|m|);
    var head := FileHead(t, v, |m|, false) + Table(rs, false);
    ImageLength(t, v, m, false);
    assert |rs| == |sizes| == |m|;
    assert |head| == te;
    assert |m| > 0 ==> Offset(sizes, |m| - 1) + sizes[|m| - 1] < 0x8000_0000;
    forall i | 0 <= i < |m|
      ensures LaidOutAt(d, head + Payload(rs, te, false) + tail, rs[i])
    {
      RelaidIds(d, m, i);
      StableAt(d, m, i);
      RelayOffset(Ordered(m), i);
      ChunkInPayload(head, rs, tail, i);
      ChunkWithin(sizes, i);
      LaidFromPayload(d, head + Payload(rs, te, false) + tail, rs[i], |head|, te,
        Offset(sizes, i), sizes[i], Offset(sizes, |m| - 1) + sizes[|m| - 1]);
    }
  }

  /** The size check passes on the table of chunks loaded under increasing ids. */
  lemma {:induction false} SizesChecked(rs: seq<Chunk>)
    requires Increasing(rs)
    ensures CheckSizes(Entries(rs), ById(rs, |rs|)) == Done
  {
    ByIdValues(rs, |rs|);
    forall i | 0 <= i < |rs|
      ensures Entries(rs)[i].header.id in ById(rs, |rs|)
        && Entries(rs)[i].size == WrittenSize(ById(rs, |rs|)[Entries(rs)[i].header.id])
    {
    }
    CheckSizesIff(Entries(rs), ById(rs, |rs|));
  }

  /** The dictionary the reader builds from a writable container's image
      has the container's keys. */
  lemma {:induction false} ByIdKeysRelaid(d: Dialect, m: map<int, Chunk>)
    requires Writable(d, m)
    ensures ById(Relay(Ordered(m)), |m|).Keys == m.Keys
  {
    forall id | id in ById(Relay(Ordered(m)), |m|)
      ensures id in m
    {
      ByIdKeys(Relay(Ordered(m)), |m|);
      var j :| 0 <= j < |m| && Relay(Ordered(m))[j].header.id == id;
      RelaidIds(d, m, j);
      assert SortedKeys(m.Keys)[j] in SortedKeys(m.Keys);
    }
    forall id | id in m
      ensures id in ById(Relay(Ordered(m)), |m|)
    {
      assert id in SortedKeys(m.Keys);
      var j :| 0 <= j < |m| && SortedKeys(m.Keys)[j] == id;
      RelaidIds(d, m, j);
    }
  }

  /** The dictionary the reader builds from a writable container's image is
      the container with the offsets the writer assigned. */
  lemma {:induction false} ByIdRelaid(d: Dialect, m: map<int, Chunk>)
    requires Writable(d, m)
    ensures ById(Relay(Ordered(m)), |m|) == Relaid(m)
  {
    ByIdKeysRelaid(d, m);
    RelaidKeys(m);
    ByIdValuesRelaid(d, m);
    SameMap(ById(Relay(Ordered(m)), |m|), Relaid(m), m.Keys);
  }

  /** Two maps with the same keys and the same value at each key are equal. */
  lemma {:induction false} SameMap<K, V>(a: map<K, V>, b: map<K, V>, ks: set<K>)
    requires a.Keys == ks && b.Keys == ks
    requires forall k :: k in ks ==> k in a && k in b && a[k] == b[k]
    ensures a == b
  {
  }

  lemma {:induction false} ByIdValuesRelaid(d: Dialect, m: map<int, Chunk>)
    requires Writable(d, m)
    ensures forall id :: id in m ==>
      id in ById(Relay(Ordered(m)), |m|) && id in Relaid(m) && ById(Relay(Ordered(m)), |m|)[id] == Relaid(m)[id]
  {
    ByIdKeysRelaid(d, m);
    RelaidKeys(m);
    RelaidIncreasing(d, m);
    ByIdValues(Relay(Ordered(m)), |m|);
    forall id | id in m
      ensures ById(Relay(Ordered(m)), |m|)[id] == Relaid(m)[id]
    {
      assert id in SortedKeys(m.Keys);
      var j :| 0 <= j < |m| && SortedKeys(m.Keys)[j] == id;
      RelaidIds(d, m, j);
      RelaidAt(m, j);
    }
  }

  /** Every key of the dictionary is the id of one of the chunks added. */
  lemma {:induction false} ByIdKeys(rs: seq<Chunk>, k: nat)
    requires k <= |rs|
    ensures forall id :: id in ById(rs, k) ==> exists j :: 0 <= j < k && rs[j].header.id == id
  {
    if k > 0 {
      ByIdKeys(rs, k - 1);
    }
  }

  /** The reader stops where the image ends. */
  lemma {:induction false} EndOfImage(t: uint32, v: uint32, m: map<int, Chunk>)
    ensures EndOf(Relay(Ordered(m)), |m|, FileHeaderSize + |m| * 20) == |Image(t, v, m, false)|
  {
    var rs, n := Relay(Ordered(m)), |m|;
    assert |rs| == n;
    var len := |Image(t, v, m, false)|;
    assert len == if n == 0 then FileHeaderSize else Offset(Sizes(rs), n - 1) + WrittenSize(rs[n - 1]) by {
      ImageLength(t, v, m, false);
    }
    if n > 0 {
      RelayOffset(Ordered(m), n - 1);
    }
  }

  /** The last stage of ReadFrom once the loading loop and the size check
      have succeeded. */
  lemma {:induction false} DecodeChunksOf(d: Dialect, data: seq<byte>, es: seq<Entry>, p: nat, canSeek: bool, loaded: map<int, Chunk>, q: int)
    requires LoadChunks(d, data, es, map[], p) == Success((loaded, q)) && CheckSizes(es, loaded) == Done
    ensures DecodeChunks(d, data, es, p, canSeek, map[]) ==
      if canSeek && q != |data| then Failure(PositionMismatch(|data|, q)) else Success(loaded)
  {
  }

  /** The stage after the file header, once the table has been parsed and
      the chunk stage has an outcome. */
  lemma {:induction false} DecodeBodyOf(d: Dialect, data: seq<byte>, p: int, count: int, canSeek: bool, es: seq<Entry>, r: Result<map<int, Chunk>>)
    ensures 0 <= p && 0 <= count && ParseTable(data, p, count) == Success(es)
      && DecodeChunks(d, data, es, p + count * 20, canSeek, map[]) == r
      ==> DecodeBody(d, data, p, count, canSeek, map[]) == r
  {
  }

  /** ReadFrom from position 0, once the file header has been decoded and
      the rest has an outcome. */
  lemma {:induction false} DecodeOf(d: Dialect, data: seq<byte>, canSeek: bool, t: uint32, v: uint32, n: int, r: Result<map<int, Chunk>>)
    ensures 0 <= n < 0x8000_0000 && DecodeHead(d, data, 0) == Success(Head(t, v, 20, n))
      && DecodeBody(d, data, FileHeaderSize, n, canSeek, map[]) == r
      ==> Decode(d, data, 0, canSeek, map[]) == if r.Success? then Success(Contents(t, v, r.value)) else Failure(r.error)
  {
  }

  // ---------------------------------------------------------------------
  // The round trip, stage by stage.

  /** The loading loop over bytes that hold every chunk where its entry
      says reads them all back and ends where the last chunk ends. */
  lemma {:induction false} LoadsLaidOut(d: Dialect, data: seq<byte>, rs: seq<Chunk>, p: nat)
    requires Increasing(rs) && LaidOut(d, data, rs)
    ensures LoadChunks(d, data, Entries(rs), map[], p) == Success((ById(rs, |rs|), EndOf(rs, |rs|, p)))
  {
    TurnsLaidOut(d, data, rs, p);
    LoadLaidOut(d, data, rs, p);
  }

  /** What the chunk stage yields for chunks laid out from position p in a
      stream of `len` bytes: the dictionary by id, unless a seekable stream
      goes on past the last chunk. */
  function Reread(rs: seq<Chunk>, p: int, len: int, canSeek: bool): Result<map<int, Chunk>>
  {
    if canSeek && EndOf(rs, |rs|, p) != len then Failure(PositionMismatch(len, EndOf(rs, |rs|, p)))
    else Success(ById(rs, |rs|))
  }

  /** After the table: the chunks load and their sizes check, so only the
      final position can still be refused. */
  lemma {:induction false} ChunksLaidOut(d: Dialect, data: seq<byte>, rs: seq<Chunk>, p: int, canSeek: bool)
    ensures 0 <= p && Increasing(rs) && LaidOut(d, data, rs)
      ==> DecodeChunks(d, data, Entries(rs), p, canSeek, map[]) == Reread(rs, p, |data|, canSeek)
  {
    if 0 <= p && Increasing(rs) && LaidOut(d, data, rs) {
      LoadsLaidOut(d, data, rs, p);
      SizesChecked(rs);
      DecodeChunksOf(d, data, Entries(rs), p, canSeek, ById(rs, |rs|), EndOf(rs, |rs|, p));
    }
  }

  /** Chunks laid out within int32 reach have int32 table fields. */
  lemma {:induction false} LaidOutFields(d: Dialect, data: seq<byte>, rs: seq<Chunk>)
    requires LaidOut(d, data, rs)
    ensures Int32Fields(rs)
  {
    forall i | 0 <= i < |rs|
      ensures -0x8000_0000 <= rs[i].header.offset < 0x8000_0000 && WrittenSize(rs[i]) < 0x8000_0000
    {
      assert LaidOutAt(d, data, rs[i]);
    }
  }

  /** The file header and the table read back what the writer put there. */
  lemma {:induction false} HeadTableLaidOut(d: Dialect, data: seq<byte>, t: uint32, v: uint32, rs: seq<Chunk>)
    ensures At(data, 0, FileHead(t, v, |rs|, false)) && IsFileType(t) && IsFileVersion(v) && |rs| < 0x8000_0000
      && TableLaidOut(data, FileHeaderSize, rs) && LaidOut(d, data, rs)
      ==> (DecodeHead(d, data, 0) == Success(Head(t, v, 20, |rs|))
        && ParseTable(data, FileHeaderSize, |rs|) == Success(Entries(rs)))
  {
    if At(data, 0, FileHead(t, v, |rs|, false)) && IsFileType(t) && IsFileVersion(v) && |rs| < 0x8000_0000
      && TableLaidOut(data, FileHeaderSize, rs) && LaidOut(d, data, rs)
    {
      DecodeHeadAt(d, data, t, v, |rs|);
      LaidOutFields(d, data, rs);
      ParseTableAt(data, rs, FileHeaderSize);
    }
  }

  /** ReadFrom over bytes that hold a file header, a table of the chunks'
      entries and every chunk where its entry says. */
  lemma {:induction false} DecodeLaidOut(d: Dialect, data: seq<byte>, t: uint32, v: uint32, rs: seq<Chunk>, canSeek: bool)
    requires At(data, 0, FileHead(t, v, |rs|, false)) && IsFileType(t) && IsFileVersion(v) && |rs| < 0x8000_0000
    requires TableLaidOut(data, FileHeaderSize, rs) && Increasing(rs) && LaidOut(d, data, rs)
    ensures Decode(d, data, 0, canSeek, map[]) ==
      if canSeek && EndOf(rs, |rs|, FileHeaderSize + |rs| * 20) != |data|
      then Failure(PositionMismatch(|data|, EndOf(rs, |rs|, FileHeaderSize + |rs| * 20)))
      else Success(Contents(t, v, ById(rs, |rs|)))
  {
    HeadTableLaidOut(d, data, t, v, rs);
    ChunksLaidOut(d, data, rs, FileHeaderSize + |rs| * 20, canSeek);
    DecodeBodyOf(d, data, FileHeaderSize, |rs|, canSeek, Entries(rs), Reread(rs, FileHeaderSize + |rs| * 20, |data|, canSeek));
    DecodeOf(d, data, canSeek, t, v, |rs|, Reread(rs, FileHeaderSize + |rs| * 20, |data|, canSeek));
  }

  /** The round trip of the little-endian container: ReadFrom on the bytes
      WriteTo produced for a container of registered chunks that reread
      returns its file type, its version and its chunks with the offsets the
      writer assigned, on any stream. */
  lemma {:induction false} DecodeImage(d: Dialect, t: uint32, v: uint32, m: map<int, Chunk>, canSeek: bool)
    requires IsFileType(t) && IsFileVersion(v) && Writable(d, m) && Stable(d, m) && |Image(t, v, m, false)| < 0x8000_0000
    ensures Decode(d, Image(t, v, m, false), 0, canSeek, map[]) == Success(Contents(t, v, Relaid(m)))
  {
    TakeAll(Image(t, v, m, false));
    DecodeExtended(d, t, v, m, Image(t, v, m, false), canSeek);
  }

  /** The round trip of any bytes that start with the image: a seekable
      stream refuses whatever follows the image in the end-of-stream check,
      any other stream ignores it. */
  lemma {:induction false} DecodeExtended(d: Dialect, t: uint32, v: uint32, m: map<int, Chunk>, data: seq<byte>, canSeek: bool)
    requires IsFileType(t) && IsFileVersion(v) && Writable(d, m) && Stable(d, m) && |Image(t, v, m, false)| < 0x8000_0000
    requires |Image(t, v, m, false)| <= |data| && data[..|Image(t, v, m, false)|] == Image(t, v, m, false)
    ensures Decode(d, data, 0, canSeek, map[])
      == if canSeek && |data| != |Image(t, v, m, false)| then Failure(PositionMismatch(|data|, |Image(t, v, m, false)|))
         else Success(Contents(t, v, Relaid(m)))
  {
    var rs := Relay(Ordered(m));
    var head, table, payload := FileHead(t, v, |m|, false), Table(rs, false), Payload(rs, TableEnd(|m|), false);
    var image := Image(t, v, m, false);
    var tail := data[|image|..];
    ImageParts(t, v, m, rs);
    PrefixSplit(data, image);
    assert data == head + table + payload + tail;
    HeadInImage(head, table, payload, tail);
    TableInImage(head, rs, payload, tail);
    ChunksInImage(d, t, v, m, tail);
    RelaidIncreasing(d, m);
    DecodeLaidOut(d, data, t, v, rs, canSeek);
    ByIdRelaid(d, m);
    EndOfImage(t, v, m);
  }


}
