/** The reading half of ReadFrom that both container dialects share, step by
    step on a NativeReader, each step proved to compute the matching
    function of CryLayout; and the shared writing steps: the offset loop
    and the summary table. */
module ContainerIO {
  import opened Outcomes
  import opened Binary
  import opened CryLayout

  /** Magic (and, for SynergyLib, the pad byte), file type, file version,
      table offset and chunk count; then EnsurePositionOrThrow(offset + 4)
      and the allocation of the table, which refuses a negative count. */
  method ReadHead(d: Dialect, reader: NativeReader) returns (r: Result<Head>)
    requires !reader.bigEndian
    modifies reader`pos
    ensures r == DecodeHead(d, reader.data, old(reader.pos))
    ensures r.Success? ==> reader.pos == old(reader.pos) + FileHeaderSize
  {
    var magic := reader.ReadBytes(|Magic(d)|);
    if magic.Failure? {
      return Failure(magic.error);
    }
    if magic.value != Magic(d) {
      return Failure(BadMagic);
    }
    if d.SynergyLib? {
      var pad := reader.ReadByte();
      if pad.Failure? {
        return Failure(pad.error);
      }
    }
    r := ReadKind(reader);
  }

  /** The file type and the file version, each checked against its enum. */
  method ReadKind(reader: NativeReader) returns (r: Result<Head>)
    requires !reader.bigEndian
    modifies reader`pos
    ensures r == DecodeKind(reader.data, old(reader.pos))
    ensures r.Success? ==> reader.pos == old(reader.pos) + 16
  {
    var t :- reader.ReadUInt32();
    if !IsFileType(t) {
      return Failure(BadFileType);
    }
    var v :- reader.ReadUInt32();
    if !IsFileVersion(v) {
      return Failure(BadFileVersion);
    }
    r := ReadPlace(reader, t, v);
  }

  /** The table offset and the chunk count, and the position check. */
  method ReadPlace(reader: NativeReader, t: uint32, v: uint32) returns (r: Result<Head>)
    requires !reader.bigEndian
    modifies reader`pos
    ensures r == DecodePlace(reader.data, old(reader.pos), t, v)
    ensures r.Success? ==> reader.pos == old(reader.pos) + 8
  {
    var off :- reader.ReadInt32();
    var n :- reader.ReadInt32();
    var at := reader.EnsurePositionOrThrow(off as int + 4);
    if at.Failure? {
      return Failure(at.error);
    }
    if n < 0 {
      return Failure(NegativeCount);
    }
    r := Success(Head(t, v, off, n));
  }

  /** One summary-table entry (ChunkSizeChunk.ReadFrom). */
  method ReadEntry(reader: NativeReader) returns (r: Result<Entry>)
    requires !reader.bigEndian
    modifies reader`pos
    ensures old(reader.Has(EntrySize)) ==>
      (r == Success(EntryOf(reader.data[old(reader.pos)..old(reader.pos) + EntrySize], false)) && reader.pos == old(reader.pos) + EntrySize)
    ensures !old(reader.Has(EntrySize)) ==> r == Failure(EndOfStream)
  {
    var b :- reader.ReadBytes(EntrySize);
    r := Success(EntryOf(b, false));
  }

  /** The loop that fills the `headers` array, one entry after another. */
  method ReadTable(reader: NativeReader, headers: array<Entry>) returns (r: Status)
    requires !reader.bigEndian && reader.pos <= |reader.data|
    modifies reader`pos, headers
    ensures ParseTable(reader.data, old(reader.pos), headers.Length) ==
      if r.Success? then Success(headers[..]) else Failure(r.error)
    ensures r.Success? ==> reader.pos == old(reader.pos) + headers.Length * 20
  {
    var p := reader.pos;
    for i := 0 to headers.Length
      invariant reader.pos == p + i * 20 <= |reader.data|
      invariant forall j :: 0 <= j < i ==> headers[j] == EntryOf(reader.data[p + j * 20..p + j * 20 + EntrySize], false)
    {
      var e := ReadEntry(reader);
      if e.Failure? {
        assert i * 20 + 20 <= headers.Length * 20;
        return Failure(e.error);
      }
      headers[i] := e.value;
    }
    assert p + headers.Length * 20 <= |reader.data|;
    assert headers[..] == ParseTable(reader.data, p, headers.Length).value;
    r := Done;
  }

  /** A chunk's ReadFrom with the declared size: its own header unless the
      class takes the table's, then the rest of the declared size, which the
      class's ReadFrom decodes when this model decodes the class. */
  method ReadChunkAt(d: Dialect, reader: NativeReader, cls: ChunkClass, tableHeader: ChunkHeader, size: int) returns (r: Result<Chunk>)
    requires !reader.bigEndian
    modifies reader`pos
    ensures r == ReadChunk(d, cls, tableHeader, reader.data, old(reader.pos), size)
    ensures r.Success? ==> reader.pos == old(reader.pos) + size
  {
    var start := reader.pos;
    ghost var data := reader.data;
    ReadChunkGuards(d, cls, tableHeader, data, start, size);
    var h := tableHeader;
    if EmbedsHeader(cls) {
      var b := reader.ReadBytes(HeaderSize);
      if b.Failure? {
        return Failure(b.error);
      }
      h := HeaderOf(b.value, false);
    }
    if size < HeaderLength(cls) {
      return Failure(PositionMismatch(start + size, start + HeaderLength(cls)));
    }
    var rest := reader.ReadBytes(size - HeaderLength(cls));
    if rest.Failure? {
      return Failure(rest.error);
    }
    assert reader.data == data && start + size <= |data|;
    ReadChunkParts(d, cls, tableHeader, data, start, size);
    var body := BodyOf(d, cls, reader.data[start..start + size]);
    if body.Failure? {
      return Failure(body.error);
    }
    r := Success(Chunk(cls, h, body.value));
  }

  /** The ways a chunk read fails before the class's ReadFrom runs: its own
      header past the end, a declared size below the header, the declared
      size past the end. */
  lemma {:induction false} ReadChunkGuards(d: Dialect, cls: ChunkClass, tableHeader: ChunkHeader, data: seq<byte>, off: nat, size: int)
    ensures EmbedsHeader(cls) && off + HeaderSize > |data| ==> ReadChunk(d, cls, tableHeader, data, off, size) == Failure(EndOfStream)
    ensures !(EmbedsHeader(cls) && off + HeaderSize > |data|) && size < HeaderLength(cls)
            ==> ReadChunk(d, cls, tableHeader, data, off, size) == Failure(PositionMismatch(off + size, off + HeaderLength(cls)))
    ensures !(EmbedsHeader(cls) && off + HeaderSize > |data|) && HeaderLength(cls) <= size && off + size > |data|
            ==> ReadChunk(d, cls, tableHeader, data, off, size) == Failure(EndOfStream)
  {
  }

  /** Once the declared size is in the stream, a chunk read is its header
      and what the class's ReadFrom makes of its bytes. */
  lemma {:induction false} ReadChunkParts(d: Dialect, cls: ChunkClass, tableHeader: ChunkHeader, data: seq<byte>, off: nat, size: int)
    requires HeaderLength(cls) <= size && off + size <= |data|
    ensures var h := if EmbedsHeader(cls) then HeaderOf(data[off..off + HeaderSize], false) else tableHeader;
            ReadChunk(d, cls, tableHeader, data, off, size)
            == match BodyOf(d, cls, data[off..off + size])
               case Success(body) => Success(Chunk(cls, h, body))
               case Failure(e) => Failure(e)
  {
  }

  /** A failure of the loading loop is final. */
  lemma {:induction false} LoadFailureSticks(d: Dialect, data: seq<byte>, es: seq<Entry>, m: map<int, Chunk>, p: nat, k: nat)
    requires k <= |es| && LoadChunks(d, data, es[..k], m, p).Failure?
    ensures LoadChunks(d, data, es, m, p) == LoadChunks(d, data, es[..k], m, p)
    decreases |es|
  {
    if k < |es| {
      assert es[..|es| - 1][..k] == es[..k];
      LoadFailureSticks(d, data, es[..|es| - 1], m, p, k);
    } else {
      assert es[..k] == es;
    }
  }

  /** One turn of the loading loop: pick the class by exact (type, version),
      seek to the declared offset, read the declared size, Add under the
      table's id. */
  method LoadStep(d: Dialect, reader: NativeReader, e: Entry, acc: map<int, Chunk>) returns (r: Result<map<int, Chunk>>)
    requires !reader.bigEndian
    modifies reader`pos
    ensures LoadOne(d, reader.data, e, acc) == if r.Success? then Success((r.value, reader.pos)) else Failure(r.error)
  {
    var cls := Registry(d, e.header.chunkType, Version(e.header));
    assert LoadOne(d, reader.data, e, acc) == LoadAs(d, cls, reader.data, e, acc);
    if cls.None? {
      return Failure(UnsupportedChunk(e.header.chunkType, Version(e.header)));
    }
    var at := reader.Seek(e.header.offset);
    if at.Failure? {
      return Failure(at.error);
    }
    LoadAsRegistered(d, cls.value, reader.data, e, acc);
    var c := ReadChunkAt(d, reader, cls.value, e.header, e.size);
    if c.Failure? {
      return Failure(c.error);
    }
    if e.header.id in acc {
      return Failure(DuplicateKey(e.header.id));
    }
    r := Success(acc[e.header.id := c.value]);
  }

  /** LoadAs for a registered class at an offset that is not negative: the
      chunk read, then the duplicate-id check. */
  lemma {:induction false} LoadAsRegistered(d: Dialect, cls: ChunkClass, data: seq<byte>, e: Entry, m: map<int, Chunk>)
    requires 0 <= e.header.offset
    ensures LoadAs(d, Some(cls), data, e, m)
            == match ReadChunk(d, cls, e.header, data, e.header.offset, e.size)
               case Failure(err) => Failure(err)
               case Success(c) =>
                 if e.header.id in m then Failure(DuplicateKey(e.header.id))
                 else Success((m[e.header.id := c], e.header.offset + e.size))
  {
  }

  /** The loading loop after one more turn; a failed turn fails the loop. */
  lemma {:induction false} LoadChunksTurn(d: Dialect, data: seq<byte>, es: seq<Entry>, m: map<int, Chunk>, p: int, i: int,
      acc: map<int, Chunk>, q: int, r: Result<(map<int, Chunk>, nat)>)
    ensures (0 <= p && 0 <= i < |es| && 0 <= q && LoadChunks(d, data, es[..i], m, p) == Success((acc, q))
             && LoadOne(d, data, es[i], acc) == r) ==>
      (LoadChunks(d, data, es[..i + 1], m, p) == r && (r.Failure? ==> LoadChunks(d, data, es, m, p) == r))
  {
    if 0 <= p && 0 <= i < |es| && 0 <= q && LoadChunks(d, data, es[..i], m, p) == Success((acc, q))
      && LoadOne(d, data, es[i], acc) == r {
      assert es[..i + 1][..i] == es[..i];
      if r.Failure? {
        LoadFailureSticks(d, data, es, m, p, i + 1);
      }
    }
  }

  /** The loading loop over the `headers` array, into the dictionary. */
  method LoadEntries(d: Dialect, reader: NativeReader, headers: array<Entry>, m: map<int, Chunk>) returns (r: Result<map<int, Chunk>>)
    requires !reader.bigEndian
    modifies reader`pos
    ensures LoadChunks(d, reader.data, headers[..], m, old(reader.pos)) ==
      if r.Success? then Success((r.value, reader.pos)) else Failure(r.error)
  {
    ghost var p := reader.pos;
    var acc := m;
    for i := 0 to headers.Length
      invariant LoadChunks(d, reader.data, headers[..i], m, p) == Success((acc, reader.pos))
    {
      ghost var q := reader.pos;
      var next := LoadStep(d, reader, headers[i], acc);
      LoadChunksTurn(d, reader.data, headers[..], m, p, i, acc, q,
        if next.Success? then Success((next.value, reader.pos)) else Failure(next.error));
      if next.Failure? {
        return Failure(next.error);
      }
      acc := next.value;
    }
    assert headers[..headers.Length] == headers[..];
    r := Success(acc);
  }

  /** The loop that compares every declared size with the loaded chunk's
      WrittenSize. */
  method CheckSizesOf(headers: array<Entry>, m: map<int, Chunk>) returns (r: Status)
    ensures r == CheckSizes(headers[..], m)
  {
    for i := 0 to headers.Length
      invariant CheckSizes(headers[..], m) == CheckSizes(headers[i..], m)
    {
      assert headers[i..][1..] == headers[i + 1..];
      var e := headers[i];
      if e.header.id !in m || e.size != WrittenSize(m[e.header.id]) {
        return Failure(SizeMismatch(e.header.id));
      }
    }
    r := Done;
  }

  /** The body of ReadFrom's little-endian scope: everything but the final
      end-of-stream check. */
  method ReadScoped(d: Dialect, reader: NativeReader, m: map<int, Chunk>) returns (r: Result<Contents>)
    requires !reader.bigEndian
    modifies reader`pos
    ensures r.Failure? ==> Decode(d, reader.data, old(reader.pos), reader.canSeek, m) == Failure(r.error)
    ensures r.Success? ==>
      Decode(d, reader.data, old(reader.pos), reader.canSeek, m) == (if reader.canSeek && reader.pos != |reader.data| then Failure(PositionMismatch(|reader.data|, reader.pos)) else Success(r.value))
  {
    var h := ReadHead(d, reader);
    if h.Failure? {
      return Failure(h.error);
    }
    var loaded := ReadBody(d, reader, h.value.count, m);
    if loaded.Failure? {
      return Failure(loaded.error);
    }
    r := Success(Contents(h.value.fileType, h.value.fileVersion, loaded.value));
  }

  /** The summary table into a fresh `headers` array, the loading loop and
      the size check. */
  method ReadBody(d: Dialect, reader: NativeReader, count: nat, m: map<int, Chunk>) returns (r: Result<map<int, Chunk>>)
    requires !reader.bigEndian && reader.pos <= |reader.data|
    modifies reader`pos
    ensures r.Failure? ==> DecodeBody(d, reader.data, old(reader.pos), count, reader.canSeek, m) == Failure(r.error)
    ensures r.Success? ==>
      DecodeBody(d, reader.data, old(reader.pos), count, reader.canSeek, m) == (if reader.canSeek && reader.pos != |reader.data| then Failure(PositionMismatch(|reader.data|, reader.pos)) else Success(r.value))
  {
    ghost var p := reader.pos;
    var headers := new Entry[count];
    var table := ReadTable(reader, headers);
    ghost var es := headers[..];
    ghost var q := reader.pos;
    DecodeBodyStages(d, reader.data, p, count, reader.canSeek, m, es, q);
    if table.Failure? {
      return Failure(table.error);
    }
    var loaded := LoadEntries(d, reader, headers, m);
    if loaded.Failure? {
      DecodeChunksStages(d, reader.data, es, q, reader.canSeek, m, map[], 0, Done);
      return Failure(loaded.error);
    }
    var sizes := CheckSizesOf(headers, loaded.value);
    DecodeChunksStages(d, reader.data, es, q, reader.canSeek, m, loaded.value, reader.pos, sizes);
    if sizes.Failure? {
      return Failure(sizes.error);
    }
    r := Success(loaded.value);
  }

  /** The chunks stage is the loading loop, then the size check, then the
      end-of-stream check. */
  lemma {:induction false} DecodeChunksStages(d: Dialect, data: seq<byte>, es: seq<Entry>, p: int, canSeek: bool,
      m: map<int, Chunk>, loaded: map<int, Chunk>, q: int, sizes: Status)
    ensures (0 <= p && LoadChunks(d, data, es, m, p).Failure?) ==>
      DecodeChunks(d, data, es, p, canSeek, m) == Failure(LoadChunks(d, data, es, m, p).error)
    ensures (0 <= p && 0 <= q && LoadChunks(d, data, es, m, p) == Success((loaded, q)) && CheckSizes(es, loaded) == sizes) ==>
      DecodeChunks(d, data, es, p, canSeek, m) ==
        (if sizes.Failure? then Failure(sizes.error) else if canSeek && q != |data| then Failure(PositionMismatch(|data|, q)) else Success(loaded))
  {
  }

  /** Decoding the body is the table followed by the chunks it lists. */
  lemma {:induction false} DecodeBodyStages(d: Dialect, data: seq<byte>, p: int, count: int, canSeek: bool,
      m: map<int, Chunk>, es: seq<Entry>, q: int)
    ensures 0 <= p && 0 <= count && q == p + count * 20 && ParseTable(data, p, count) == Success(es) ==>
      DecodeBody(d, data, p, count, canSeek, m) == DecodeChunks(d, data, es, q, canSeek, m)
    ensures 0 <= p && 0 <= count && ParseTable(data, p, count).Failure? ==>
      DecodeBody(d, data, p, count, canSeek, m) == Failure(ParseTable(data, p, count).error)
  {
  }

  /** ReadFrom's reading part for a dialect: the little-endian scope, then,
      on a seekable stream, the check that the whole stream was consumed.
      It computes exactly Decode. */
  method ReadContainer(d: Dialect, reader: NativeReader, m: map<int, Chunk>) returns (r: Result<Contents>)
    modifies reader
    ensures r == Decode(d, reader.data, old(reader.pos), reader.canSeek, m)
    ensures reader.bigEndian == old(reader.bigEndian)
  {
    var saved := reader.bigEndian;
    reader.bigEndian := false;
    r := ReadScoped(d, reader, m);
    reader.bigEndian := saved;
    if r.Success? && reader.canSeek {
      var end := reader.EnsurePositionOrThrow(|reader.data|);
      if end.Failure? {
        r := Failure(end.error);
      }
    }
  }

  /** ChunkSizeChunk.WriteTo: the header fields, then the size. */
  method WriteEntry(writer: NativeWriter, e: Entry)
    modifies writer`data
    ensures writer.data == old(writer.data) + EntryBytes(e, writer.bigEndian)
  {
    writer.WriteUInt32(e.header.chunkType);
    writer.WriteUInt32(e.header.versionRaw);
    writer.WriteInt32(e.header.offset);
    writer.WriteInt32(e.header.id);
    writer.WriteInt32(e.size);
  }

  /** The loop writing the summary table: one ChunkSizeChunk per entry. */
  method WriteTable(writer: NativeWriter, es: seq<Entry>, ghost cs: seq<Chunk>)
    requires es == Entries(cs)
    modifies writer`data
    ensures writer.data == old(writer.data) + Table(cs, writer.bigEndian)
  {
    for i := 0 to |es|
      invariant writer.data == old(writer.data) + Table(cs[..i], writer.bigEndian)
    {
      ghost var before := writer.data;
      WriteEntry(writer, es[i]);
      TableTurn(cs, writer.bigEndian, i, old(writer.data), before, writer.data);
    }
    assert cs[..|cs|] == cs;
  }

  lemma {:induction false} TableTurn(cs: seq<Chunk>, be: bool, i: int, base: seq<byte>, before: seq<byte>, after: seq<byte>)
    ensures (0 <= i < |cs| && before == base + Table(cs[..i], be) && after == before + EntryBytes(Entries(cs)[i], be))
      ==> after == base + Table(cs[..i + 1], be)
  {
    if 0 <= i < |cs| {
      assert cs[..i + 1][..i] == cs[..i];
    }
  }

  /** The offset loop both WriteTo methods run over the chunks in id order:
      each summary entry gets the chunk's header with the computed offset
      (right after the table, then the previous offset plus the previous
      size rounded up to 4) and the chunk's written size. */
  method LayEntries(cs: seq<Chunk>) returns (entries: array<Entry>)
    ensures fresh(entries)
    ensures entries[..] == Entries(Relay(cs))
  {
    ghost var sizes := Sizes(cs);
    var n := |cs|;
    entries := new Entry[n];
    for i := 0 to n
      invariant forall j {:trigger entries[j]} :: 0 <= j < i ==> entries[j] == Entry(WithOffset(cs[j], Offset(sizes, j)).header, sizes[j])
    {
      var off := if i == 0 then FileHeaderSize + n * EntrySize
        else entries[i - 1].header.offset + (entries[i - 1].size + 3) / 4 * 4;
      assert off == Offset(sizes, i) by {
        if i > 0 {
          RoundUp4Facts(entries[i - 1].size);
        }
      }
      ghost var e := Entry(WithOffset(cs[i], Offset(sizes, i)).header, sizes[i]);
      assert Entry(WithOffset(cs[i], off).header, WrittenSize(cs[i])) == e;
      entries[i] := Entry(WithOffset(cs[i], off).header, WrittenSize(cs[i]));
      assert entries[i] == e;
    }
    LaidEntries(cs, entries[..]);
  }

  /** Entries laid out as the offset loop lays them out are the table of
      the relaid chunks. */
  lemma {:induction false} LaidEntries(cs: seq<Chunk>, es: seq<Entry>)
    requires |es| == |cs|
    requires forall j {:trigger es[j]} :: 0 <= j < |cs| ==> es[j] == Entry(WithOffset(cs[j], Offset(Sizes(cs), j)).header, Sizes(cs)[j])
    ensures es == Entries(Relay(cs))
  {
    var rs := Relay(cs);
    forall j | 0 <= j < |cs|
      ensures es[j] == Entries(rs)[j]
    {
      assert rs[j] == WithOffset(cs[j], Offset(Sizes(cs), j));
      assert rs[j].cls == cs[j].cls && rs[j].body == cs[j].body;
    }
  }
}
