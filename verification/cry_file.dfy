/** WiiUStreamTool's CryFile: the same container as SynergyLib's
    CryChunks with an eight-byte magic and a smaller registry, read by the
    shared steps of ContainerIO, and written with a different chunk loop:
    the chunk's OWN header offset (which WriteTo leaves untouched) is
    checked against the position, the padding to 4 comes after each chunk
    instead of before it, and a physical-bones chunk, whose WriteTo is not
    implemented, stops the write. */
module WiiUChunks {
  import opened Outcomes
  import opened Binary
  import opened CryLayout
  import opened CryRoundTrip
  import opened Records
  import ContainerIO
  import Dialects

  // ---------------------------------------------------------------------
  // The chunk region as written.

  /** The position after the first chunks written from `start`, each
      followed by padding to 4. */
  function After(cs: seq<Chunk>, start: nat): nat
  {
    if cs == [] then start else RoundUp4(After(cs[..|cs| - 1], start) + WrittenSize(cs[|cs| - 1]))
  }

  /** The bytes of the chunk loop: each chunk, then padding to 4. */
  function Trail(cs: seq<Chunk>, start: nat, be: bool): (r: seq<byte>)
    ensures start + |r| == After(cs, start)
  {
    if cs == [] then []
    else
      var init := Trail(cs[..|cs| - 1], start, be);
      init + ChunkBytes(cs[|cs| - 1]) + Zeros(PadTo4(start + |init| + WrittenSize(cs[|cs| - 1])))
  }

  /** The chunk's WriteTo is implemented: every class but the physical
      bones. */
  predicate Writes(c: Chunk)
  {
    c.cls != CompiledPhysicalBonesChunk
  }

  predicate Implemented(cs: seq<Chunk>)
  {
    forall i :: 0 <= i < |cs| ==> Writes(cs[i])
  }

  /** The chunk loop from chunk i on, the first i chunks written from
      `start`: the first chunk whose own offset (an int32) is not the
      position fails the check, and the first physical-bones chunk that
      passes it fails in its WriteTo. */
  function LoopFrom(cs: seq<Chunk>, i: nat, start: nat): Status
    requires i <= |cs|
    decreases |cs| - i
  {
    if i == |cs| then Done
    else if Wrap(OwnOffset(cs[i])) != After(cs[..i], start) then Failure(LayoutMismatch)
    else if !Writes(cs[i]) then Failure(NotImplemented)
    else LoopFrom(cs, i + 1, start)
  }

  /** What WriteTo's chunk loop gives for the chunks `cs` in id order
      written by a writer holding `w` bytes. */
  function Outcome(cs: seq<Chunk>, w: nat): Status
  {
    LoopFrom(cs, 0, w + TableEnd(|cs|))
  }

  /** The loop's check passes for every chunk: each chunk's own offset is
      the position where it is written. */
  predicate Positioned(cs: seq<Chunk>, start: nat)
  {
    PositionedUpTo(cs, |cs|, start)
  }

  /** The check passes for the first k chunks. */
  predicate PositionedUpTo(cs: seq<Chunk>, k: nat, start: nat)
    requires k <= |cs|
  {
    forall i {:trigger OwnOffset(cs[i])} :: 0 <= i < k ==> Wrap(OwnOffset(cs[i])) == After(cs[..i], start)
  }

  /** Every check of WriteTo's chunk loop passes for the chunks `cs` in
      id order written by a writer holding `w` bytes. */
  predicate Accepted(cs: seq<Chunk>, w: nat)
  {
    Positioned(cs, w + TableEnd(|cs|))
  }

  /** The writer's contents `w` after WriteTo has written the chunks `cs`
      in id order and every check has passed: header, the table of the
      laid-out chunks, the chunk loop. */
  function Written(w: seq<byte>, t: uint32, v: uint32, cs: seq<Chunk>, be: bool): seq<byte>
  {
    var table := w + FileHead(t, v, |cs|, be) + Table(Relay(cs), be);
    table + Trail(cs, |table|, be)
  }

  /** The position after the first chunks written from `start`, each
      preceded by padding to 4 (the order SynergyLib writes them in). */
  function Reach(cs: seq<Chunk>, start: nat): nat
  {
    if cs == [] then start else RoundUp4(Reach(cs[..|cs| - 1], start)) + WrittenSize(cs[|cs| - 1])
  }

  /** WriteAligned's loop from chunk i on: as LoopFrom, with the position
      padded before the check. */
  function AlignedFrom(cs: seq<Chunk>, i: nat, start: nat): Status
    requires i <= |cs|
    decreases |cs| - i
  {
    if i == |cs| then Done
    else if Wrap(OwnOffset(cs[i])) != RoundUp4(Reach(cs[..i], start)) then Failure(LayoutMismatch)
    else if !Writes(cs[i]) then Failure(NotImplemented)
    else AlignedFrom(cs, i + 1, start)
  }

  function AlignedOutcome(cs: seq<Chunk>, w: nat): Status
  {
    AlignedFrom(cs, 0, w + TableEnd(|cs|))
  }

  /** WriteAligned's check passes for every chunk: each chunk's own offset
      is the padded position where it is written. */
  predicate Lined(cs: seq<Chunk>, start: nat)
  {
    LinedUpTo(cs, |cs|, start)
  }

  /** The check passes for the first k chunks. */
  predicate LinedUpTo(cs: seq<Chunk>, k: nat, start: nat)
    requires k <= |cs|
  {
    forall i {:trigger OwnOffset(cs[i])} :: 0 <= i < k ==> Wrap(OwnOffset(cs[i])) == RoundUp4(Reach(cs[..i], start))
  }

  /** Every check of WriteAligned passes for the chunks `cs` in id order
      written by a writer holding `w` bytes. */
  predicate AlignedAccepted(cs: seq<Chunk>, w: nat)
  {
    Lined(cs, w + TableEnd(|cs|))
  }

  /** The writer's contents `w` after WriteAligned has written the chunks
      `cs` in id order: header, table, then SynergyLib's payload. */
  function AlignedWritten(w: seq<byte>, t: uint32, v: uint32, cs: seq<Chunk>, be: bool): seq<byte>
  {
    var table := w + FileHead(t, v, |cs|, be) + Table(Relay(cs), be);
    table + Payload(cs, |table|, be)
  }

  // ---------------------------------------------------------------------
  // The container.

  class CryFile {
    var chunks: map<int, Chunk>
    var fileType: uint32
    var fileVersion: uint32

    constructor ()
      ensures chunks == map[] && fileType == 0 && fileVersion == 0
    {
      chunks := map[];
      fileType := 0;
      fileVersion := 0;
    }

    /** Little-endian header with the eight-byte magic, the table, the
        chunks at their declared offsets through the WiiU registry, the
        size check, and the end-of-stream check of a seekable stream; the
        physical-bones reader runs on its chunks (the bone record's codec
        and its ChildCount field are passed in). */
    method ReadFrom<B>(reader: NativeReader, bones: RecordCodec<B>, childCount: B -> int32) returns (r: Status)
      modifies this, reader
      ensures reader.bigEndian == old(reader.bigEndian)
      ensures Decode(Dialects.WiiUDecoder(bones, childCount), reader.data, old(reader.pos), reader.canSeek, old(chunks)) ==
        (if r.Success? then Success(Contents(fileType, fileVersion, chunks)) else Failure(r.error))
    {
      var c := ContainerIO.ReadContainer(Dialects.WiiUDecoder(bones, childCount), reader, chunks);
      if c.Failure? {
        return Failure(c.error);
      }
      fileType := c.value.fileType;
      fileVersion := c.value.fileVersion;
      chunks := c.value.chunks;
      r := Done;
    }

    /** Writes the header, the table of the chunks in id order with the
        computed offsets (given to the table's copies only), then each chunk
        after checking its own offset against the position, followed by
        padding to 4. It fails at the first chunk off its position or the
        first physical-bones chunk. */
    method WriteTo(writer: NativeWriter) returns (r: Status)
      modifies writer`data
      ensures r == Outcome(Ordered(chunks), |old(writer.data)|)
      ensures r.Success? <==> Accepted(Ordered(chunks), |old(writer.data)|) && Implemented(Ordered(chunks))
      ensures r.Success? ==> writer.data == Written(old(writer.data), fileType, fileVersion, Ordered(chunks), writer.bigEndian)
    {
      r := WriteOrdered(writer, fileType, fileVersion, Ordered(chunks));
    }

    /** WriteTo for the chunks `cs` in id order. */
    static method WriteOrdered(writer: NativeWriter, t: uint32, v: uint32, cs: seq<Chunk>) returns (r: Status)
      modifies writer`data
      ensures r == Outcome(cs, |old(writer.data)|)
      ensures r.Success? <==> Accepted(cs, |old(writer.data)|) && Implemented(cs)
      ensures r.Success? ==> writer.data == Written(old(writer.data), t, v, cs, writer.bigEndian)
    {
      ghost var w := writer.data;
      WriteHead(writer, t, v, |cs|);
      var entries := ContainerIO.LayEntries(cs);
      ContainerIO.WriteTable(writer, entries[..], Relay(cs));
      ghost var table := writer.data;
      HeadTableLength(w, table, t, v, cs, writer.bigEndian);
      r := WriteChunks(writer, cs);
      OutcomeAt(cs, |w|, |table|);
    }

    /** The 24-byte file header: the eight-byte magic, type, version, the
        table offset 20 and the count. */
    static method WriteHead(writer: NativeWriter, t: uint32, v: uint32, n: int)
      modifies writer`data
      ensures writer.data == old(writer.data) + FileHead(t, v, n, writer.bigEndian)
    {
      ghost var d0, be := writer.data, writer.bigEndian;
      writer.WriteBytes(CryTek + [0]);
      ghost var h := CryTek + [0];
      assert writer.data == d0 + h;
      writer.WriteUInt32(t);
      writer.WriteUInt32(v);
      writer.WriteInt32(20);
      Appended4(d0, h, U32Bytes(t, be), U32Bytes(v, be), I32Bytes(20, be));
      writer.WriteInt32(n);
      Appended(d0, h + U32Bytes(t, be) + U32Bytes(v, be) + I32Bytes(20, be), I32Bytes(n, be));
    }

    /** The chunk loop: refuses a chunk whose own offset is not the
        position, writes it (the physical bones' WriteTo throws), pads to
        4. */
    static method WriteChunks(writer: NativeWriter, cs: seq<Chunk>) returns (r: Status)
      modifies writer`data
      ensures r == LoopFrom(cs, 0, |old(writer.data)|)
      ensures r.Success? ==> writer.data == old(writer.data) + Trail(cs, |old(writer.data)|, writer.bigEndian)
    {
      ghost var start := |writer.data|;
      for i := 0 to |cs|
        invariant LoopFrom(cs, 0, start) == LoopFrom(cs, i, start)
        invariant writer.data == old(writer.data) + Trail(cs[..i], start, writer.bigEndian)
      {
        if Wrap(cs[i].header.offset) != |writer.data| {
          return Failure(LayoutMismatch);
        }
        if cs[i].cls == CompiledPhysicalBonesChunk {
          return Failure(NotImplemented);
        }
        ghost var before := writer.data;
        writer.WriteBytes(ChunkBytes(cs[i]));
        ghost var mid := writer.data;
        writer.WritePadding4();
        TrailTurn(cs, writer.bigEndian, i, old(writer.data), before, mid, writer.data);
      }
      assert cs[..|cs|] == cs;
      r := Done;
    }

    /** WriteTo with the padding moved in front of each chunk, as SynergyLib
        writes it, so that the output ends with the last chunk. */
    method WriteAligned(writer: NativeWriter) returns (r: Status)
      modifies writer`data
      ensures r == AlignedOutcome(Ordered(chunks), |old(writer.data)|)
      ensures r.Success? <==> AlignedAccepted(Ordered(chunks), |old(writer.data)|) && Implemented(Ordered(chunks))
      ensures r.Success? ==> writer.data == AlignedWritten(old(writer.data), fileType, fileVersion, Ordered(chunks), writer.bigEndian)
    {
      r := WriteAlignedOrdered(writer, fileType, fileVersion, Ordered(chunks));
    }

    /** WriteAligned for the chunks `cs` in id order. */
    static method WriteAlignedOrdered(writer: NativeWriter, t: uint32, v: uint32, cs: seq<Chunk>) returns (r: Status)
      modifies writer`data
      ensures r == AlignedOutcome(cs, |old(writer.data)|)
      ensures r.Success? <==> AlignedAccepted(cs, |old(writer.data)|) && Implemented(cs)
      ensures r.Success? ==> writer.data == AlignedWritten(old(writer.data), t, v, cs, writer.bigEndian)
    {
      ghost var w := writer.data;
      WriteHead(writer, t, v, |cs|);
      var entries := ContainerIO.LayEntries(cs);
      ContainerIO.WriteTable(writer, entries[..], Relay(cs));
      ghost var table := writer.data;
      HeadTableLength(w, table, t, v, cs, writer.bigEndian);
      assert |table| == |w| + TableEnd(|cs|);
      r := WriteAlignedChunks(writer, cs);
      AlignedOutcomeAt(cs, |w|, |table|);
    }

    /** The corrected chunk loop: pads to 4, refuses a chunk whose own
        offset is not the position, writes it. */
    static method WriteAlignedChunks(writer: NativeWriter, cs: seq<Chunk>) returns (r: Status)
      modifies writer`data
      ensures r == AlignedFrom(cs, 0, |old(writer.data)|)
      ensures r.Success? ==> writer.data == old(writer.data) + Payload(cs, |old(writer.data)|, writer.bigEndian)
    {
      ghost var base := writer.data;
      ghost var start := |base|;
      for i := 0 to |cs|
        invariant AlignedFrom(cs, 0, start) == AlignedFrom(cs, i, start)
        invariant writer.data == base + Payload(cs[..i], start, writer.bigEndian)
      {
        var turn := WriteAlignedChunk(writer, cs, i, base);
        if turn.Failure? {
          return turn;
        }
      }
      assert cs[..|cs|] == cs;
      r := Done;
    }

    /** One turn of the corrected loop: pads to 4, then writes chunk i if
        its own offset is the position and its WriteTo is implemented. */
    static method WriteAlignedChunk(writer: NativeWriter, cs: seq<Chunk>, i: nat, ghost base: seq<byte>) returns (r: Status)
      requires i < |cs| && writer.data == base + Payload(cs[..i], |base|, writer.bigEndian)
      modifies writer`data
      ensures r.Success? <==> Wrap(OwnOffset(cs[i])) == RoundUp4(Reach(cs[..i], |base|)) && Writes(cs[i])
      ensures r.Failure? ==> r == AlignedFrom(cs, i, |base|)
      ensures r.Success? ==> AlignedFrom(cs, i, |base|) == AlignedFrom(cs, i + 1, |base|)
      ensures r.Success? ==> writer.data == base + Payload(cs[..i + 1], |base|, writer.bigEndian)
    {
      ghost var before := writer.data;
      writer.WritePadding4();
      PayloadReach(cs[..i], |base|, writer.bigEndian);
      if Wrap(cs[i].header.offset) != |writer.data| {
        return Failure(LayoutMismatch);
      }
      if cs[i].cls == CompiledPhysicalBonesChunk {
        return Failure(NotImplemented);
      }
      ghost var mid := writer.data;
      writer.WriteBytes(ChunkBytes(cs[i]));
      PayloadTurn(cs, writer.bigEndian, i, base, before, mid, writer.data);
      r := Done;
    }
  }

  /** One turn of the chunk loop extends the trail by one chunk. */
  lemma {:induction false} TrailTurn(cs: seq<Chunk>, be: bool, i: int, base: seq<byte>, before: seq<byte>,
                                     mid: seq<byte>, after: seq<byte>)
    ensures (0 <= i < |cs| && before == base + Trail(cs[..i], |base|, be)
        && mid == before + ChunkBytes(cs[i]) && after == mid + Zeros(PadTo4(|mid|)))
      ==> after == base + Trail(cs[..i + 1], |base|, be)
  {
    if 0 <= i < |cs| {
      assert cs[..i + 1][..i] == cs[..i];
    }
  }

  lemma {:induction false} PositionedTurn(cs: seq<Chunk>, i: nat, start: nat)
    requires i < |cs|
    ensures PositionedUpTo(cs, i, start) && Wrap(OwnOffset(cs[i])) == After(cs[..i], start) ==> PositionedUpTo(cs, i + 1, start)
  {
  }

  /** The chunk loop from chunk i on, once the first i chunks have passed
      it: it succeeds exactly when every check passes and no chunk is
      physical bones; with no physical bones a failure is a check, and with
      every check passing a failure is physical bones. */
  lemma {:induction false} LoopFromOutcome(cs: seq<Chunk>, i: nat, start: nat)
    requires i <= |cs| && PositionedUpTo(cs, i, start) && forall j :: 0 <= j < i ==> Writes(cs[j])
    ensures LoopFrom(cs, i, start).Success? <==> Positioned(cs, start) && Implemented(cs)
    ensures Implemented(cs) && !Positioned(cs, start) ==> LoopFrom(cs, i, start) == Failure(LayoutMismatch)
    ensures Positioned(cs, start) && !Implemented(cs) ==> LoopFrom(cs, i, start) == Failure(NotImplemented)
    decreases |cs| - i
  {
    if i < |cs| && Wrap(OwnOffset(cs[i])) == After(cs[..i], start) && Writes(cs[i]) {
      PositionedTurn(cs, i, start);
      LoopFromOutcome(cs, i + 1, start);
    }
  }

  /** The header and the table of n chunks take TableEnd(n) bytes. */
  lemma {:induction false} HeadTableLength(w: seq<byte>, table: seq<byte>, t: uint32, v: uint32, cs: seq<Chunk>, be: bool)
    ensures table == w + FileHead(t, v, |cs|, be) + Table(Relay(cs), be) ==> |table| == |w| + TableEnd(|cs|)
  {
  }

  /** Accepted is Positioned at the end of the table. */
  lemma {:induction false} AcceptedAt(cs: seq<Chunk>, w: nat, start: nat)
    ensures start == w + TableEnd(|cs|) ==> (Accepted(cs, w) <==> Positioned(cs, start))
  {
  }

  /** The chunk loop started at the end of the table is WriteTo's outcome:
      it passes exactly when every check does and no chunk is physical
      bones. */
  lemma {:induction false} OutcomeAt(cs: seq<Chunk>, w: nat, start: nat)
    requires start == w + TableEnd(|cs|)
    ensures LoopFrom(cs, 0, start) == Outcome(cs, w)
    ensures Outcome(cs, w).Success? <==> Accepted(cs, w) && Implemented(cs)
  {
    AcceptedAt(cs, w, start);
    LoopFromOutcome(cs, 0, start);
  }

  // ---------------------------------------------------------------------
  // What WriteTo writes for a laid-out container, and how ReadFrom sees it.

  lemma {:induction false} TableAligned(n: nat)
    ensures TableEnd(n) % 4 == 0
  {
    assert TableEnd(n) == 4 * (6 + 5 * n);
  }

  /** From a position that is a multiple of 4, the chunk loop writes
      SynergyLib's payload followed by the padding of its end. */
  lemma {:induction false} TrailPayload(cs: seq<Chunk>, start: nat, be: bool)
    requires start % 4 == 0
    ensures Trail(cs, start, be) == Payload(cs, start, be) + Zeros(PadTo4(start + |Payload(cs, start, be)|))
    decreases |cs|
  {
    if cs == [] {
      RoundUp4Aligned(start);
    } else {
      TrailPayload(cs[..|cs| - 1], start, be);
      TrailPayloadStep(cs, start, be);
    }
  }

  lemma {:induction false} TrailPayloadStep(cs: seq<Chunk>, start: nat, be: bool)
    requires cs != []
    requires var init := cs[..|cs| - 1];
      Trail(init, start, be) == Payload(init, start, be) + Zeros(PadTo4(start + |Payload(init, start, be)|))
    ensures Trail(cs, start, be) == Payload(cs, start, be) + Zeros(PadTo4(start + |Payload(cs, start, be)|))
  {
    var init := cs[..|cs| - 1];
    var ti, pi, chunk := Trail(init, start, be), Payload(init, start, be), ChunkBytes(cs[|cs| - 1]);
    TrailLast(cs, start, be);
    PayloadLast(cs, start, be);
    PadAfterStep(Trail(cs, start, be), ti, Payload(cs, start, be), pi, chunk, start, start + |ti| + |chunk|);
  }

  /** The trail is the trail of all but the last chunk, then the last
      chunk's bytes, padded. */
  lemma {:induction false} TrailLast(cs: seq<Chunk>, start: nat, be: bool)
    requires cs != []
    ensures var ti := Trail(cs[..|cs| - 1], start, be);
            var chunk := ChunkBytes(cs[|cs| - 1]);
            Trail(cs, start, be) == ti + chunk + Zeros(PadTo4(start + |ti| + |chunk|))
  {
  }

  /** The payload is the payload of all but the last chunk, padded, then
      the last chunk's bytes. */
  lemma {:induction false} PayloadLast(cs: seq<Chunk>, start: nat, be: bool)
    requires cs != []
    ensures var pi := Payload(cs[..|cs| - 1], start, be);
            Payload(cs, start, be) == pi + Zeros(PadTo4(start + |pi|)) + ChunkBytes(cs[|cs| - 1])
  {
  }

  /** One chunk more on both sides of TrailPayload. */
  lemma {:induction false} PadAfterStep(trail: seq<byte>, trailInit: seq<byte>, payload: seq<byte>, payloadInit: seq<byte>,
                                        chunk: seq<byte>, start: nat, n: nat)
    requires trailInit == payloadInit + Zeros(PadTo4(start + |payloadInit|))
    requires trail == trailInit + chunk + Zeros(PadTo4(n)) && n == start + |trailInit| + |chunk|
    requires payload == payloadInit + Zeros(PadTo4(start + |payloadInit|)) + chunk
    ensures trail == payload + Zeros(PadTo4(start + |payload|))
  {
    assert n == start + |payload|;
  }

  /** After a header and table, the chunk loop writes the payload and
      pads its end. */
  lemma {:induction false} TrailAfterTable(cs: seq<Chunk>, head: seq<byte>, be: bool)
    requires |head| == TableEnd(|cs|)
    ensures head + Trail(cs, |head|, be)
      == (head + Payload(cs, TableEnd(|cs|), be)) + Zeros(PadTo4(|head + Payload(cs, TableEnd(|cs|), be)|))
  {
    TableAligned(|cs|);
    TrailPayload(cs, TableEnd(|cs|), be);
    assert Trail(cs, |head|, be) == Trail(cs, TableEnd(|cs|), be);
    assert |head + Payload(cs, TableEnd(|cs|), be)| == TableEnd(|cs|) + |Payload(cs, TableEnd(|cs|), be)|;
  }

  /** Chunks whose own offsets are the layout's pass every check of the
      chunk loop, when they start right after the table, exactly when
      every offset fits in an int32. */
  lemma {:induction false} PlacedPositioned(cs: seq<Chunk>)
    requires Placed(cs)
    ensures Positioned(cs, TableEnd(|cs|)) <==> Addressable(cs)
  {
    TableAligned(|cs|);
    forall i | 0 <= i < |cs|
      ensures OwnOffset(cs[i]) == After(cs[..i], TableEnd(|cs|))
      ensures Addressable(cs) ==> Wrap(OwnOffset(cs[i])) == OwnOffset(cs[i])
    {
      TrailPayload(cs[..i], TableEnd(|cs|), false);
      PayloadPadded(cs, false, i);
      AddressableAt(cs, i);
      WrapKeeps(OwnOffset(cs[i]));
    }
    if |cs| > 0 && Positioned(cs, TableEnd(|cs|)) {
      var k := |cs| - 1;
      assert Wrap(OwnOffset(cs[k])) == After(cs[..k], TableEnd(|cs|));
      AddressableAt(cs, k);
      WrapKeeps(OwnOffset(cs[k]));
    }
  }

  /** For laid-out chunks, WriteTo's output is the image followed by the
      padding of its end. */
  lemma {:induction false} WrittenLaid(t: uint32, v: uint32, cs: seq<Chunk>, be: bool)
    requires Relay(cs) == cs
    ensures var image := FileHead(t, v, |cs|, be) + Table(cs, be) + Payload(cs, TableEnd(|cs|), be);
      Written([], t, v, cs, be) == image + Zeros(PadTo4(|image|))
  {
    var head := FileHead(t, v, |cs|, be) + Table(cs, be);
    assert [] + FileHead(t, v, |cs|, be) + Table(cs, be) == head;
    assert Written([], t, v, cs, be) == head + Trail(cs, |head|, be);
    HeadTableLength([], head, t, v, cs, be);
    TrailAfterTable(cs, head, be);
  }

  /** Once a container has been laid out (as ReadFrom returns it after
      reading an image), WriteTo's checks pass exactly when every offset
      fits in an int32, it fails exactly when one does not or a chunk is
      physical bones, and what it writes is the image with its end padded
      to 4. */
  lemma {:induction false} WrittenImage(t: uint32, v: uint32, m: map<int, Chunk>, be: bool)
    ensures Accepted(Ordered(Relaid(m)), 0) <==> Addressable(Relay(Ordered(m)))
    ensures Outcome(Ordered(Relaid(m)), 0).Success? <==> Addressable(Relay(Ordered(m))) && Implemented(Relay(Ordered(m)))
    ensures Addressable(Relay(Ordered(m))) && !Implemented(Relay(Ordered(m)))
      ==> Outcome(Ordered(Relaid(m)), 0) == Failure(NotImplemented)
    ensures Implemented(Relay(Ordered(m))) && !Addressable(Relay(Ordered(m)))
      ==> Outcome(Ordered(Relaid(m)), 0) == Failure(LayoutMismatch)
    ensures Written([], t, v, Ordered(Relaid(m)), be) == Image(t, v, m, be) + Zeros(PadTo4(|Image(t, v, m, be)|))
  {
    OrderedRelaid(m);
    RelayIdempotent(Ordered(m));
    RelayPlaced(Ordered(m));
    PlacedPositioned(Relay(Ordered(m)));
    AcceptedAt(Relay(Ordered(m)), 0, TableEnd(|m|));
    LoopFromOutcome(Relay(Ordered(m)), 0, TableEnd(|m|));
    WrittenBytes(t, v, m, be);
  }

  /** What WriteTo writes for a laid-out container is its image with the
      end padded to 4. */
  lemma {:induction false} WrittenBytes(t: uint32, v: uint32, m: map<int, Chunk>, be: bool)
    ensures Written([], t, v, Ordered(Relaid(m)), be) == Image(t, v, m, be) + Zeros(PadTo4(|Image(t, v, m, be)|))
  {
    var cs := Relay(Ordered(m));
    OrderedRelaid(m);
    assert Ordered(Relaid(m)) == cs;
    RelayIdempotent(Ordered(m));
    assert |cs| == |m|;
    WrittenLaid(t, v, cs, be);
    assert Image(t, v, m, be) == FileHead(t, v, |cs|, be) + Table(cs, be) + Payload(cs, TableEnd(|cs|), be);
  }

  /** With no physical-bones chunk, every chunk of a WiiU container
      rereads: the physical bones are the only class it decodes. */
  lemma {:induction false} WiiUStable(d: Dialect, m: map<int, Chunk>)
    requires d.WiiU? && Implemented(Relay(Ordered(m)))
    ensures Stable(d, m)
  {
    RelaidKeys(m);
    forall k | k in Relaid(m)
      ensures Rereads(d, Relaid(m)[k])
    {
      var ks := SortedKeys(m.Keys);
      assert k in ks;
      var i :| 0 <= i < |ks| && ks[i] == k;
      RelaidAt(m, i);
      assert Writes(Relay(Ordered(m))[i]);
      RereadsUndecoded(d, Relaid(m)[k]);
    }
  }

  /** A container with no physical-bones chunk whose image fits an int32
      is written by WriteTo; ReadFrom on what it writes refuses the padding
      after the last chunk in the end-of-stream check of a seekable stream
      whenever there is any (the image does not end on a multiple of 4),
      and otherwise gives the container back. */
  lemma {:induction false} WrittenReadBack(d: Dialect, t: uint32, v: uint32, m: map<int, Chunk>, canSeek: bool)
    requires d.WiiU? && IsFileType(t) && IsFileVersion(v) && Writable(d, m) && Implemented(Relay(Ordered(m)))
    requires |Image(t, v, m, false)| < 0x8000_0000
    ensures Outcome(Ordered(Relaid(m)), 0) == Done
    ensures var w := Written([], t, v, Ordered(Relaid(m)), false);
      Decode(d, w, 0, canSeek, map[])
      == if canSeek && |w| != |Image(t, v, m, false)| then Failure(PositionMismatch(|w|, |Image(t, v, m, false)|))
         else Success(Contents(t, v, Relaid(m)))
  {
    WrittenDone(t, v, m);
    WiiUStable(d, m);
    WrittenDecodes(d, t, v, m, canSeek);
  }

  /** ReadFrom on what WriteTo writes for a container whose chunks all
      reread. */
  lemma {:induction false} WrittenDecodes(d: Dialect, t: uint32, v: uint32, m: map<int, Chunk>, canSeek: bool)
    requires IsFileType(t) && IsFileVersion(v) && Writable(d, m) && Stable(d, m)
    requires |Image(t, v, m, false)| < 0x8000_0000
    ensures var w := Written([], t, v, Ordered(Relaid(m)), false);
      Decode(d, w, 0, canSeek, map[])
      == if canSeek && |w| != |Image(t, v, m, false)| then Failure(PositionMismatch(|w|, |Image(t, v, m, false)|))
         else Success(Contents(t, v, Relaid(m)))
  {
    WrittenPrefix(t, v, m);
    DecodeExtended(d, t, v, m, Written([], t, v, Ordered(Relaid(m)), false), canSeek);
  }

  /** What WriteTo writes starts with the image. */
  lemma {:induction false} WrittenPrefix(t: uint32, v: uint32, m: map<int, Chunk>)
    ensures var w := Written([], t, v, Ordered(Relaid(m)), false);
      |Image(t, v, m, false)| <= |w| && w[..|Image(t, v, m, false)|] == Image(t, v, m, false)
  {
    var image := Image(t, v, m, false);
    WrittenBytes(t, v, m, false);
    assert (image + Zeros(PadTo4(|image|)))[..|image|] == image;
  }

  /** WriteTo's loop passes every chunk of a container with no
      physical-bones chunk whose image fits an int32. */
  lemma {:induction false} WrittenDone(t: uint32, v: uint32, m: map<int, Chunk>)
    requires Implemented(Relay(Ordered(m))) && |Image(t, v, m, false)| < 0x8000_0000
    ensures Outcome(Ordered(Relaid(m)), 0) == Done
  {
    ImageAddressable(t, v, m, false);
    var cs := Relay(Ordered(m));
    assert Addressable(cs) && Implemented(cs);
    WrittenImage(t, v, m, false);
    var r := Outcome(Ordered(Relaid(m)), 0);
    assert r.Success?;
    assert r.value == ();
  }

  // ---------------------------------------------------------------------
  // The corrected chunk loop.

  /** Payload's length follows Reach. */
  lemma {:induction false} PayloadReach(cs: seq<Chunk>, start: nat, be: bool)
    ensures start + |Payload(cs, start, be)| == Reach(cs, start)
    decreases |cs|
  {
    if cs != [] {
      PayloadReach(cs[..|cs| - 1], start, be);
    }
  }

  /** One turn of WriteAligned's loop extends the payload by one chunk. */
  lemma {:induction false} PayloadTurn(cs: seq<Chunk>, be: bool, i: int, base: seq<byte>, before: seq<byte>,
                                       mid: seq<byte>, after: seq<byte>)
    ensures (0 <= i < |cs| && before == base + Payload(cs[..i], |base|, be)
        && mid == before + Zeros(PadTo4(|before|)) && after == mid + ChunkBytes(cs[i]))
      ==> after == base + Payload(cs[..i + 1], |base|, be)
  {
    if 0 <= i < |cs| {
      assert cs[..i + 1][..i] == cs[..i];
    }
  }

  lemma {:induction false} LinedTurn(cs: seq<Chunk>, i: nat, start: nat)
    requires i < |cs|
    ensures LinedUpTo(cs, i, start) && Wrap(OwnOffset(cs[i])) == RoundUp4(Reach(cs[..i], start)) ==> LinedUpTo(cs, i + 1, start)
  {
  }

  /** WriteAligned's loop from chunk i on, once the first i chunks have
      passed it: as LoopFromOutcome. */
  lemma {:induction false} AlignedFromOutcome(cs: seq<Chunk>, i: nat, start: nat)
    requires i <= |cs| && LinedUpTo(cs, i, start) && forall j :: 0 <= j < i ==> Writes(cs[j])
    ensures AlignedFrom(cs, i, start).Success? <==> Lined(cs, start) && Implemented(cs)
    ensures Implemented(cs) && !Lined(cs, start) ==> AlignedFrom(cs, i, start) == Failure(LayoutMismatch)
    ensures Lined(cs, start) && !Implemented(cs) ==> AlignedFrom(cs, i, start) == Failure(NotImplemented)
    decreases |cs| - i
  {
    if i < |cs| && Wrap(OwnOffset(cs[i])) == RoundUp4(Reach(cs[..i], start)) && Writes(cs[i]) {
      LinedTurn(cs, i, start);
      AlignedFromOutcome(cs, i + 1, start);
    }
  }

  /** The corrected loop started at the end of the table is WriteAligned's
      outcome: it passes exactly when every check does and no chunk is
      physical bones. */
  lemma {:induction false} AlignedOutcomeAt(cs: seq<Chunk>, w: nat, start: nat)
    requires start == w + TableEnd(|cs|)
    ensures AlignedFrom(cs, 0, start) == AlignedOutcome(cs, w)
    ensures AlignedOutcome(cs, w).Success? <==> AlignedAccepted(cs, w) && Implemented(cs)
  {
    AlignedAcceptedAt(cs, w, start);
    AlignedFromOutcome(cs, 0, start);
  }

  /** AlignedAccepted is Lined at the end of the table. */
  lemma {:induction false} AlignedAcceptedAt(cs: seq<Chunk>, w: nat, start: nat)
    ensures start == w + TableEnd(|cs|) ==> (AlignedAccepted(cs, w) <==> Lined(cs, start))
  {
  }

  /** Chunks whose own offsets are the layout's pass every check of the
      corrected loop, when they start right after the table, exactly when
      every offset fits in an int32. */
  lemma {:induction false} PlacedLined(cs: seq<Chunk>)
    requires Placed(cs)
    ensures Lined(cs, TableEnd(|cs|)) <==> Addressable(cs)
  {
    forall i | 0 <= i < |cs|
      ensures OwnOffset(cs[i]) == RoundUp4(Reach(cs[..i], TableEnd(|cs|)))
      ensures Addressable(cs) ==> Wrap(OwnOffset(cs[i])) == OwnOffset(cs[i])
    {
      PayloadReach(cs[..i], TableEnd(|cs|), false);
      PayloadPadded(cs, false, i);
      AddressableAt(cs, i);
      WrapKeeps(OwnOffset(cs[i]));
    }
    if |cs| > 0 && Lined(cs, TableEnd(|cs|)) {
      var k := |cs| - 1;
      assert Wrap(OwnOffset(cs[k])) == RoundUp4(Reach(cs[..k], TableEnd(|cs|)));
      AddressableAt(cs, k);
      WrapKeeps(OwnOffset(cs[k]));
    }
  }

  /** For laid-out chunks, WriteAligned's output is the image. */
  lemma {:induction false} AlignedLaid(t: uint32, v: uint32, cs: seq<Chunk>, be: bool)
    requires Relay(cs) == cs
    ensures AlignedWritten([], t, v, cs, be) == FileHead(t, v, |cs|, be) + Table(cs, be) + Payload(cs, TableEnd(|cs|), be)
  {
    var head := FileHead(t, v, |cs|, be) + Table(cs, be);
    assert [] + FileHead(t, v, |cs|, be) + Table(cs, be) == head;
    assert AlignedWritten([], t, v, cs, be) == head + Payload(cs, |head|, be);
    HeadTableLength([], head, t, v, cs, be);
    PayloadAfterTable(cs, head, be);
  }

  lemma {:induction false} PayloadAfterTable(cs: seq<Chunk>, head: seq<byte>, be: bool)
    requires |head| == TableEnd(|cs|)
    ensures Payload(cs, |head|, be) == Payload(cs, TableEnd(|cs|), be)
  {
  }

  /** Once a container has been laid out, WriteAligned's checks pass
      exactly when every offset fits in an int32, it fails exactly when
      one does not or a chunk is physical bones, and it writes exactly the
      image. */
  lemma {:induction false} AlignedImage(t: uint32, v: uint32, m: map<int, Chunk>, be: bool)
    ensures AlignedAccepted(Ordered(Relaid(m)), 0) <==> Addressable(Relay(Ordered(m)))
    ensures AlignedOutcome(Ordered(Relaid(m)), 0).Success? <==> Addressable(Relay(Ordered(m))) && Implemented(Relay(Ordered(m)))
    ensures Addressable(Relay(Ordered(m))) && !Implemented(Relay(Ordered(m)))
      ==> AlignedOutcome(Ordered(Relaid(m)), 0) == Failure(NotImplemented)
    ensures Implemented(Relay(Ordered(m))) && !Addressable(Relay(Ordered(m)))
      ==> AlignedOutcome(Ordered(Relaid(m)), 0) == Failure(LayoutMismatch)
    ensures AlignedWritten([], t, v, Ordered(Relaid(m)), be) == Image(t, v, m, be)
  {
    OrderedRelaid(m);
    RelayIdempotent(Ordered(m));
    RelayPlaced(Ordered(m));
    PlacedLined(Relay(Ordered(m)));
    AlignedAcceptedAt(Relay(Ordered(m)), 0, TableEnd(|m|));
    AlignedFromOutcome(Relay(Ordered(m)), 0, TableEnd(|m|));
    AlignedLaid(t, v, Relay(Ordered(m)), be);
  }

  /** A container with no physical-bones chunk whose image fits an int32
      is written by WriteAligned, and ReadFrom gives it back from what
      WriteAligned writes, on any stream. */
  lemma {:induction false} AlignedReadBack(d: Dialect, t: uint32, v: uint32, m: map<int, Chunk>, canSeek: bool)
    requires d.WiiU? && IsFileType(t) && IsFileVersion(v) && Writable(d, m) && Implemented(Relay(Ordered(m)))
    requires |Image(t, v, m, false)| < 0x8000_0000
    ensures AlignedOutcome(Ordered(Relaid(m)), 0) == Done
    ensures Decode(d, AlignedWritten([], t, v, Ordered(Relaid(m)), false), 0, canSeek, map[]) == Success(Contents(t, v, Relaid(m)))
  {
    AlignedDone(t, v, m);
    AlignedImage(t, v, m, false);
    WiiUStable(d, m);
    DecodeImage(d, t, v, m, canSeek);
  }

  /** WriteAligned's loop passes every chunk of a container with no
      physical-bones chunk whose image fits an int32. */
  lemma {:induction false} AlignedDone(t: uint32, v: uint32, m: map<int, Chunk>)
    requires Implemented(Relay(Ordered(m))) && |Image(t, v, m, false)| < 0x8000_0000
    ensures AlignedOutcome(Ordered(Relaid(m)), 0) == Done
  {
    ImageAddressable(t, v, m, false);
    var cs := Relay(Ordered(m));
    assert Addressable(cs) && Implemented(cs);
    AlignedImage(t, v, m, false);
    var r := AlignedOutcome(Ordered(Relaid(m)), 0);
    assert r.Success?;
    assert r.value == ();
  }
}
