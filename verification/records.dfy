/** What the chunk and struct codecs share: the reads a ReadFrom makes, as
    functions of the stream and a position; fixed-width string fields; the
    chunk header every chunk class reads first; and records whose own codec
    is not part of this model (the elements of the list chunks), given by
    what they do. */
module Records {
  import opened Outcomes
  import opened Binary
  import opened CryLayout

  // ---------------------------------------------------------------------
  // Reads as functions of the stream.

  function BytesAt(data: seq<byte>, p: nat, n: nat): (r: Result<seq<byte>>)
    ensures r.Success? <==> p + n <= |data|
    ensures r.Success? ==> |r.value| == n && r.value == data[p..p + n]
  {
    if p + n <= |data| then Success(data[p..p + n]) else Failure(EndOfStream)
  }

  function ByteAt(data: seq<byte>, p: nat): Result<byte>
  {
    if p + 1 <= |data| then Success(data[p]) else Failure(EndOfStream)
  }

  function U16At(data: seq<byte>, p: nat, be: bool): Result<uint16>
  {
    var b :- BytesAt(data, p, 2);
    Success(U16Of(b, be))
  }

  function U32At(data: seq<byte>, p: nat, be: bool): Result<uint32>
  {
    var b :- BytesAt(data, p, 4);
    Success(U32Of(b, be))
  }

  function I32At(data: seq<byte>, p: nat, be: bool): Result<int32>
  {
    var b :- BytesAt(data, p, 4);
    Success(I32Of(b, be))
  }

  /** `new ChunkHeader(reader)`: the 16-byte header in the reader's order. */
  function HeaderAt(data: seq<byte>, p: nat, be: bool): Result<ChunkHeader>
  {
    var b :- BytesAt(data, p, HeaderSize);
    Success(HeaderOf(b, be))
  }

  /** `n` floats (or other 32-bit words) one after another, each in the
      byte order be; a float is kept as its 32-bit pattern. */
  function WordsAt(data: seq<byte>, q: nat, n: nat, be: bool): (r: Result<seq<uint32>>)
    ensures r.Success? ==> |r.value| == n && (n > 0 ==> q + 4 * n <= |data|)
  {
    if n == 0 then Success([])
    else
      var init :- WordsAt(data, q, n - 1, be);
      var last :- U32At(data, q + 4 * (n - 1), be);
      Success(init + [last])
  }

  function WordsBytes(ws: seq<uint32>, be: bool): (r: seq<byte>)
    ensures |r| == 4 * |ws|
  {
    if ws == [] then [] else WordsBytes(ws[..|ws| - 1], be) + U32Bytes(ws[|ws| - 1], be)
  }

  /** Written words read back as themselves. */
  lemma {:induction false} WordsRoundTrip(ws: seq<uint32>, be: bool, data: seq<byte>, q: nat)
    requires At(data, q, WordsBytes(ws, be))
    ensures WordsAt(data, q, |ws|, be) == Success(ws)
    decreases |ws|
  {
    if ws != [] {
      var init, last := ws[..|ws| - 1], ws[|ws| - 1];
      assert |init| == |ws| - 1;
      assert WordsAt(data, q, |init|, be) == Success(init) by {
        WordsSplit(ws, be, data, q);
        WordsRoundTrip(init, be, data, q);
      }
      assert U32At(data, q + 4 * (|ws| - 1), be) == Success(last) by {
        WordsSplit(ws, be, data, q);
        WordRoundTrip(last, be, data, q + 4 * (|ws| - 1));
      }
      assert WordsAt(data, q, |ws|, be) == Success(init + [last]);
      assert init + [last] == ws;
    }
  }

  /** An occurrence of written words is one of all but the last, then one
      of the last. */
  lemma {:induction false} WordsSplit(ws: seq<uint32>, be: bool, data: seq<byte>, q: nat)
    requires ws != [] && At(data, q, WordsBytes(ws, be))
    ensures At(data, q, WordsBytes(ws[..|ws| - 1], be))
    ensures At(data, q + 4 * (|ws| - 1), U32Bytes(ws[|ws| - 1], be))
  {
    AtSplit(data, q, WordsBytes(ws[..|ws| - 1], be), U32Bytes(ws[|ws| - 1], be));
  }

  lemma {:induction false} WordRoundTrip(w: uint32, be: bool, data: seq<byte>, q: nat)
    requires At(data, q, U32Bytes(w, be))
    ensures U32At(data, q, be) == Success(w)
  {
    AtSlice(data, q, U32Bytes(w, be));
    U32RoundTrip(w, be);
  }

  /** A string written into a fixed-width field (WriteFString): its bytes,
      cut or padded with zeros to the width. */
  function FixedField(s: seq<byte>, width: nat): (r: seq<byte>)
    ensures |r| == width
    ensures |s| == width ==> r == s
  {
    if |s| >= width then s[..width] else s + Zeros(width - |s|)
  }

  /** Reads `n` zero bytes of padding. */
  function PadAt(data: seq<byte>, p: nat, n: nat): Status
  {
    var b :- BytesAt(data, p, n);
    if AllZero(b) then Done else Failure(NonZeroPadding)
  }

  // The reader's reads, stated by the functions above.

  method ReadBytesAt(reader: NativeReader, n: nat) returns (r: Result<seq<byte>>)
    modifies reader`pos
    ensures r == BytesAt(reader.data, old(reader.pos), n)
    ensures r.Success? ==> reader.pos == old(reader.pos) + n
  {
    r := reader.ReadBytes(n);
  }

  method ReadByteAt(reader: NativeReader) returns (r: Result<byte>)
    modifies reader`pos
    ensures r == ByteAt(reader.data, old(reader.pos))
    ensures r.Success? ==> reader.pos == old(reader.pos) + 1
  {
    r := reader.ReadByte();
  }

  method ReadU16At(reader: NativeReader) returns (r: Result<uint16>)
    modifies reader`pos
    ensures r == U16At(reader.data, old(reader.pos), reader.bigEndian)
    ensures r.Success? ==> reader.pos == old(reader.pos) + 2
  {
    r := reader.ReadUInt16();
  }

  method ReadU32At(reader: NativeReader) returns (r: Result<uint32>)
    modifies reader`pos
    ensures r == U32At(reader.data, old(reader.pos), reader.bigEndian)
    ensures r.Success? ==> reader.pos == old(reader.pos) + 4
  {
    r := reader.ReadUInt32();
  }

  method ReadI32At(reader: NativeReader) returns (r: Result<int32>)
    modifies reader`pos
    ensures r == I32At(reader.data, old(reader.pos), reader.bigEndian)
    ensures r.Success? ==> reader.pos == old(reader.pos) + 4
  {
    r := reader.ReadInt32();
  }

  method ZeroesAt(reader: NativeReader, n: nat) returns (r: Status)
    modifies reader`pos
    ensures r == PadAt(reader.data, old(reader.pos), n)
    ensures r.Success? ==> reader.pos == old(reader.pos) + n
  {
    r := reader.EnsureZeroesOrThrow(n);
  }

  /** ReadSingle (or ReadUInt32) `n` times. */
  method ReadWords(reader: NativeReader, n: nat) returns (r: Result<seq<uint32>>)
    modifies reader`pos
    ensures r == WordsAt(reader.data, old(reader.pos), n, reader.bigEndian)
    ensures r.Success? ==> reader.pos == old(reader.pos) + 4 * n
  {
    var ws: seq<uint32> := [];
    for i := 0 to n
      invariant WordsAt(reader.data, old(reader.pos), i, reader.bigEndian) == Success(ws)
      invariant reader.pos == old(reader.pos) + 4 * i
    {
      var w := ReadU32At(reader);
      if w.Failure? {
        WordsFail(reader.data, old(reader.pos), i + 1, n, reader.bigEndian);
        return Failure(w.error);
      }
      ws := ws + [w.value];
    }
    r := Success(ws);
  }

  /** Write(float) (or Write(uint)) for each word in turn. */
  method WriteWords(writer: NativeWriter, ws: seq<uint32>)
    modifies writer`data
    ensures writer.data == old(writer.data) + WordsBytes(ws, writer.bigEndian)
  {
    for i := 0 to |ws|
      invariant writer.data == old(writer.data) + WordsBytes(ws[..i], writer.bigEndian)
    {
      writer.WriteUInt32(ws[i]);
      assert ws[..i + 1][..i] == ws[..i];
    }
    assert ws[..|ws|] == ws;
  }

  method ReadChunkHeader(reader: NativeReader) returns (r: Result<ChunkHeader>)
    modifies reader`pos
    ensures r == HeaderAt(reader.data, old(reader.pos), reader.bigEndian)
    ensures r.Success? ==> reader.pos == old(reader.pos) + HeaderSize
  {
    var b :- reader.ReadBytes(HeaderSize);
    r := Success(HeaderOf(b, reader.bigEndian));
  }

  // ---------------------------------------------------------------------
  // Records whose codec is not part of this model.

  /** The codec of a record type whose source is not part of this model
      (CompiledPhysicalProxy, CompiledMorphTarget, CompiledPhysicalBone):
      its ReadFrom as a function of the stream, the position, the byte
      order and the size hint (the record and the position after it), its
      WriteTo in a byte order, and its WrittenSize. */
  datatype RecordCodec<!E> = RecordCodec(
    read: (seq<byte>, nat, bool, int) -> Result<(E, nat)>,
    write: (E, bool) -> seq<byte>,
    size: E -> nat)

  /** What the list chunks rely on: WrittenSize is the length WriteTo
      writes, and ReadFrom with the hint reads back, at any position, the
      record WriteTo wrote there. */
  ghost predicate Sound<E(!new)>(c: RecordCodec<E>, hint: int)
  {
    (forall e, be :: |c.write(e, be)| == c.size(e))
    && (forall data, p, e, be ::
          At(data, p, c.write(e, be)) ==> c.read(data, p, be, hint) == Success((e, p + |c.write(e, be)|)))
  }

  /** The first `count` records from p, one after another, and the
      position after them. */
  function ReadList<E>(c: RecordCodec<E>, data: seq<byte>, p: nat, count: nat, be: bool, hint: int): (r: Result<(seq<E>, nat)>)
    ensures r.Success? ==> |r.value.0| == count
    decreases count
  {
    if count == 0 then Success(([], p))
    else
      var init :- ReadList(c, data, p, count - 1, be, hint);
      var last :- c.read(data, init.1, be, hint);
      Success((init.0 + [last.0], last.1))
  }

  /** The records written one after another. */
  function ListBytes<E>(c: RecordCodec<E>, es: seq<E>, be: bool): seq<byte>
  {
    if es == [] then [] else ListBytes(c, es[..|es| - 1], be) + c.write(es[|es| - 1], be)
  }

  /** The sum of the records' WrittenSize. */
  function SumSizes<E>(c: RecordCodec<E>, es: seq<E>): nat
  {
    if es == [] then 0 else SumSizes(c, es[..|es| - 1]) + c.size(es[|es| - 1])
  }

  /** A failed read of the first k words fails every longer read with the
      same error. */
  lemma {:induction false} WordsFail(data: seq<byte>, q: nat, k: nat, n: nat, be: bool)
    requires k <= n && WordsAt(data, q, k, be).Failure?
    ensures WordsAt(data, q, n, be) == Failure(WordsAt(data, q, k, be).error)
    decreases n
  {
    if n > k {
      WordsFail(data, q, k, n - 1, be);
    }
  }

  /** A failed read of the first k records fails every longer read with
      the same error. */
  lemma {:induction false} ReadListFails<E>(c: RecordCodec<E>, data: seq<byte>, p: nat, k: nat, n: nat, be: bool, hint: int)
    requires k <= n && ReadList(c, data, p, k, be, hint).Failure?
    ensures ReadList(c, data, p, n, be, hint) == Failure(ReadList(c, data, p, k, be, hint).error)
    decreases n
  {
    if n > k {
      ReadListFails(c, data, p, k, n - 1, be, hint);
    }
  }

  /** The list's length is the sum of the records' WrittenSize. */
  lemma {:induction false} ListLength<E(!new)>(c: RecordCodec<E>, es: seq<E>, be: bool, hint: int)
    requires Sound(c, hint)
    ensures |ListBytes(c, es, be)| == SumSizes(c, es)
    decreases |es|
  {
    if es != [] {
      ListLength(c, es[..|es| - 1], be, hint);
      assert |c.write(es[|es| - 1], be)| == c.size(es[|es| - 1]);
    }
  }

  /** Reading back a written list gives the records, and ends right after
      their bytes. */
  lemma {:induction false} ReadListBytes<E(!new)>(c: RecordCodec<E>, es: seq<E>, be: bool, hint: int, data: seq<byte>, p: nat)
    requires Sound(c, hint) && At(data, p, ListBytes(c, es, be))
    ensures ReadList(c, data, p, |es|, be, hint) == Success((es, p + |ListBytes(c, es, be)|))
    decreases |es|
  {
    if es != [] {
      var init, last := es[..|es| - 1], es[|es| - 1];
      var head, tail := ListBytes(c, init, be), c.write(last, be);
      assert ListBytes(c, es, be) == head + tail;
      AtSplit(data, p, head, tail);
      ReadListBytes(c, init, be, hint, data, p);
      ReadAt(c, hint, last, be, data, p + |head|);
      ReadListStep(c, data, p, be, hint, es, p + |head|, p + |head| + |tail|);
    }
  }

  /** One more record read after a list read. */
  lemma {:induction false} ReadListStep<E>(c: RecordCodec<E>, data: seq<byte>, p: nat, be: bool, hint: int,
                                          es: seq<E>, q: nat, q': nat)
    requires es != []
    requires ReadList(c, data, p, |es| - 1, be, hint) == Success((es[..|es| - 1], q))
    requires c.read(data, q, be, hint) == Success((es[|es| - 1], q'))
    ensures ReadList(c, data, p, |es|, be, hint) == Success((es, q'))
  {
    assert es[..|es| - 1] + [es[|es| - 1]] == es;
  }

  /** Sound, for one record at one position. */
  lemma {:induction false} ReadAt<E(!new)>(c: RecordCodec<E>, hint: int, e: E, be: bool, data: seq<byte>, q: nat)
    requires Sound(c, hint) && At(data, q, c.write(e, be))
    ensures c.read(data, q, be, hint) == Success((e, q + |c.write(e, be)|))
  {
  }

  /** One record's ReadFrom: the reader moves to the position after it. */
  method ReadRecord<E>(reader: NativeReader, c: RecordCodec<E>, hint: int) returns (r: Result<E>)
    modifies reader`pos
    ensures var x := c.read(reader.data, old(reader.pos), reader.bigEndian, hint);
      if x.Success? then r == Success(x.value.0) && reader.pos == x.value.1 else r == Failure(x.error)
  {
    var x := c.read(reader.data, reader.pos, reader.bigEndian, hint);
    if x.Failure? {
      return Failure(x.error);
    }
    reader.pos := x.value.1;
    r := Success(x.value.0);
  }

  /** The counted loop of the list chunks: reads `count` records, appending
      each to the list. */
  method ReadItems<E>(reader: NativeReader, c: RecordCodec<E>, hint: int, count: nat) returns (r: Result<seq<E>>)
    modifies reader`pos
    ensures ReadList(c, reader.data, old(reader.pos), count, reader.bigEndian, hint)
      == if r.Success? then Success((r.value, reader.pos)) else Failure(r.error)
  {
    var items: seq<E> := [];
    for i := 0 to count
      invariant ReadList(c, reader.data, old(reader.pos), i, reader.bigEndian, hint) == Success((items, reader.pos))
    {
      var e := ReadRecord(reader, c, hint);
      if e.Failure? {
        ReadListFails(c, reader.data, old(reader.pos), i + 1, count, reader.bigEndian, hint);
        return Failure(e.error);
      }
      items := items + [e.value];
    }
    r := Success(items);
  }

  /** The loop of the list chunks' WriteTo: each record in list order. */
  method WriteItems<E>(writer: NativeWriter, c: RecordCodec<E>, items: seq<E>, be: bool)
    modifies writer`data
    ensures writer.data == old(writer.data) + ListBytes(c, items, be)
  {
    for i := 0 to |items|
      invariant writer.data == old(writer.data) + ListBytes(c, items[..i], be)
    {
      writer.WriteBytes(c.write(items[i], be));
      assert items[..i + 1][..i] == items[..i];
    }
    assert items[..|items|] == items;
  }
}
