# CryEngine chunk files, chunk codecs and DDS surface geometry

This project models the binary-format core of SynergyTools in Dafny and proves properties of it. It has four parts.

- **The CryEngine chunk container**, in both of its dialects.
  - The SynergyLib `CryChunks` class has a seven-byte magic and one pad byte.
  - The WiiUStreamTool `CryFile` class has an eight-byte magic, a smaller registry of chunk classes, and a writer that pads after each chunk.
  - Both share a 24-byte file header and a summary table of 20-byte entries (chunk header plus declared size). Each chunk's offset is computed from the sizes of the chunks before it.
  - Reading selects a chunk class by its exact (type, version) pair, reads each chunk at its offset, checks every declared size, and checks that a seekable stream was read to its end.
  - `CryChunks.FromStream` decodes, re-encodes and compares the bytes outside a list of ignore zones.
- **The chunk and struct codecs**:
  - `NodeChunk`;
  - the count-prefixed `CompiledPhysicalProxyChunk` and `CompiledMorphTargetsChunk`;
  - both `CompiledBone` records;
  - the WiiU `CompiledPhysicalBonesChunk`, with its growing loop bound;
  - `PhysicsGeometry`, `Rgba32` and `CompiledIntFace`.
- **DirectDraw Surface geometry** from `DdsFile`:
  - mip dimensions, pitch and slice sizes;
  - mip, face and image sizes;
  - the data-offset family;
  - the uncompressed branch of the pixel-format decision.
- **Channel masks and YUV formats**: the `ChannelDefinition` constructor, `FromMask`, the integer paths of `DecodeValueAsUnorm`, and `YuvPixelFormat`.

How the model is built:

- **Bytes and integers.** Bytes are integers 0..255. C#'s 32-bit integers are subset types of `int`, and wrap-around is written out with `Wrap`. Bitwise operators are functions on naturals (module `Bits`), each proved bit by bit.
- **Readers and writers.** `NativeReader` and `NativeWriter` are classes over a byte sequence. They hold a position, an endianness flag and a "can seek" flag. Each reader method is proved against a pure decoding function over the whole input. Each writer method is proved to append the image computed by a pure encoding function.
- **Classes.** Where the source keeps state in a class, the model does too: `CryChunks`, `CryFile`, `NodeChunk`, `CompiledBone` and the list chunks are classes whose methods update their fields. Their loops carry invariants.
- **Round trips.** Codecs are paired with lemmas saying that reading what was written gives the value back.

Module layout:

| file | contents |
|---|---|
| `outcomes.dfy` | results and the source's exception kinds |
| `binary.dfy` | integer widths, byte images of words, the reader and writer |
| `bits.dfy` | bitwise operations on naturals |
| `records.dfy` | fixed-width fields and lists of records |
| `cry_layout.dfy` | the container's registry, its byte layout and the pure decoder |
| `container_io.dfy` | the reading steps and the table loop shared by both dialects |
| `cry_chunks.dfy` | SynergyLib's `CryChunks` |
| `cry_file.dfy` | WiiU's `CryFile` |
| `cry_roundtrip.dfy` | the proof that a written container reads back |
| `dialects.dfy` | the chunk classes each dialect's container decodes with their own ReadFrom, and which of them come back unchanged |
| `node_chunk.dfy` | `NodeChunk` |
| `counted_chunks.dfy` | the two count-prefixed chunks |
| `compiled_bone.dfy` | `CompiledBone` in SynergyLib |
| `wiiu_structs.dfy` | the WiiU `CompiledBone`, `PhysicsGeometry`, `Rgba32` and `CompiledIntFace` |
| `physical_bones.dfy` | `CompiledPhysicalBonesChunk` |
| `dds_file.dfy` | `DdsFile` |
| `channels.dfy` | `ChannelDefinition` |
| `pixel_formats.dfy` | `YuvPixelFormat` |

## Model

| member | source | states |
|---|---|---|
| CryLayout.Magic | SynergyLib/FileFormat/CryEngine/CryChunks.cs:14 | each dialect's magic starts with "CryTek" and its zero byte; SynergyLib's is 7 bytes (then an unchecked pad byte), WiiU's is 8 |
| CryLayout.Select | SynergyLib/FileFormat/CryEngine/CryChunks.cs:59-86 | a class is chosen only if it is in the dialect's registry and its (type, version) pair is exactly the one asked for; no class is chosen only when no registered class has that pair |
| CryRoundTrip.RegistryExact | SynergyLib/FileFormat/CryEngine/CryChunks.cs:59-86 | the registry answers class c for (t, v) if and only if the dialect supports c and c's pair is (t, v) |
| CryRoundTrip.RegistrationInjective | SynergyLib/FileFormat/CryEngine/CryChunks.cs:62-83 | no two chunk classes share a chunk type, so the dispatch is unambiguous |
| CryRoundTrip.UnknownPairRefused | SynergyLib/FileFormat/CryEngine/CryChunks.cs:84-85 | a (type, version) pair that no class registers is refused by both dialects, never skipped |
| SynergyChunks.NextId | SynergyLib/FileFormat/CryEngine/CryChunks.cs:21 | an empty container gives id 1; otherwise the new id exceeds every existing header id as long as none is int.MaxValue |
| SynergyChunks.NextIdFresh | SynergyLib/FileFormat/CryEngine/CryChunks.cs:19-27 | when chunks are keyed by their own ids (all below int.MaxValue), the next id is not yet a key and exceeds all keys, so ids are never reused |
| SynergyChunks.NextIdWraps | SynergyLib/FileFormat/CryEngine/CryChunks.cs:21 | a header id of int.MaxValue makes the next id wrap to int.MinValue |
| SynergyChunks.BigEndianRaw | SynergyLib/FileFormat/CryEngine/CryChunks.cs:33 | the big-endian version word has bit 31 set and keeps the version's low 31 bits |
| SynergyChunks.CryChunks.constructor | SynergyLib/FileFormat/CryEngine/CryChunks.cs:13-17 | a new container has no chunks and file type and version 0 |
| SynergyChunks.CryChunks.AddChunkLE | SynergyLib/FileFormat/CryEngine/CryChunks.cs:19-27 | succeeds exactly when the next id is free; adds a chunk with that id, the version stored unchanged and offset 0; otherwise fails with a duplicate key and leaves the chunks unchanged |
| SynergyChunks.CryChunks.AddChunkBE | SynergyLib/FileFormat/CryEngine/CryChunks.cs:29-37 | as AddChunkLE, with bit 31 of the stored version set |
| SynergyChunks.CryChunks.Add | SynergyLib/FileFormat/CryEngine/CryChunks.cs:89 | dictionary insertion: succeeds exactly for a fresh key and then maps it to the chunk; a present key fails with a duplicate key and changes nothing |
| SynergyChunks.CryChunks.ReadFrom | SynergyLib/FileFormat/CryEngine/CryChunks.cs:39-99 | the outcome and the new file type, version and chunk map are exactly those of the SynergyLib decoder on the reader's bytes from its position |
| ContainerIO.ReadContainer | SynergyLib/FileFormat/CryEngine/CryChunks.cs:39-99 | the reading steps compute exactly the pure decoder `Decode` |
| ContainerIO.ReadHead | SynergyLib/FileFormat/CryEngine/CryChunks.cs:40-51 | equals `DecodeHead`: a wrong magic, an undefined file type or version, a cursor other than table offset + 4, or a negative count fails; success consumes 24 bytes |
| ContainerIO.ReadKind | SynergyLib/FileFormat/CryEngine/CryChunks.cs:44-48 | equals `DecodeKind`: the type is checked before the version is read |
| ContainerIO.ReadPlace | SynergyLib/FileFormat/CryEngine/CryChunks.cs:49-53 | equals `DecodePlace`: the position check follows the count |
| ContainerIO.ReadEntry | SynergyLib/FileFormat/CryEngine/CryChunks.cs:55-56 | one table entry is the next 20 bytes decoded, or end of stream |
| ContainerIO.ReadTable | SynergyLib/FileFormat/CryEngine/CryChunks.cs:53-57 | the array filled by the loop is exactly `ParseTable` of the input; success advances 20 bytes per entry |
| ContainerIO.LoadEntries | SynergyLib/FileFormat/CryEngine/CryChunks.cs:58-90 | the per-entry loop computes `LoadChunks`: seek to the declared offset, select the class, read the declared size, add by id |
| ContainerIO.LoadAsRegistered | SynergyLib/FileFormat/CryEngine/CryChunks.cs:84-89 | for a registered class at a non-negative offset, a table entry loads as the chunk read there followed by the duplicate-id check, and ends after the declared size |
| ContainerIO.LoadFailureSticks | SynergyLib/FileFormat/CryEngine/CryChunks.cs:58-90 | once an entry fails to load, later entries do not change the outcome |
| ContainerIO.CheckSizesOf | SynergyLib/FileFormat/CryEngine/CryChunks.cs:92-94 | the size-check loop computes `CheckSizes` |
| CryRoundTrip.CheckSizesIff | SynergyLib/FileFormat/CryEngine/CryChunks.cs:92-94 | the size check passes if and only if every declared size equals the loaded chunk's written size |
| CryRoundTrip.ReadChunkSound | SynergyLib/FileFormat/CryEngine/CryChunks.cs:87-88 | a chunk that reads is of the requested class, lies within the data, and carries its embedded header (or the table's for SourceInfo); a class with no decoder re-encodes to exactly the bytes read at the declared size, and a decoded class holds what its ReadFrom gives for those bytes |
| CryRoundTrip.ReadChunkOfBytes | SynergyLib/FileFormat/CryEngine/CryChunks.cs:87-88 | a chunk's own bytes, found at its offset, read back as that chunk if and only if the chunk rereads (its class's ReadFrom keeps exactly its body) |
| ContainerIO.ReadChunkAt | SynergyLib/FileFormat/CryEngine/CryChunks.cs:87-88 | reading a chunk at the cursor is `ReadChunk`: the embedded header, then the class's ReadFrom (NodeChunk, the two list chunks, WiiU's physical bones) or the raw bytes of the declared size; success advances by exactly the declared size |
| ContainerIO.ReadChunkParts | SynergyLib/FileFormat/CryEngine/CryChunks.cs:87-88 | once the declared size is in the stream, a chunk read is its header with what the class's ReadFrom makes of its bytes, or that ReadFrom's failure |
| CryRoundTrip.RereadsUndecoded | SynergyLib/FileFormat/CryEngine/CryChunks.cs:87-88 | a chunk of a class with no decoder always rereads |
| CryRoundTrip.StableAt | SynergyLib/FileFormat/CryEngine/CryChunks.cs:87-88 | every relaid chunk of a stable container rereads |
| CryLayout.HeaderRoundTrip | SynergyLib/FileFormat/CryEngine/CryChunks.cs:53-57 | a chunk header's 16 bytes decode back to the header |
| CryLayout.HeaderBytesOf | SynergyLib/FileFormat/CryEngine/CryChunks.cs:53-57 | every 16-byte group is the image of the header it decodes to |
| CryLayout.EntryRoundTrip | SynergyLib/FileFormat/CryEngine/CryChunks.cs:118-119 | a table entry's 20 bytes decode back to the entry |
| ContainerIO.WriteEntry | SynergyLib/FileFormat/CryEngine/CryChunks.cs:118-119 | appends one entry's 20-byte image in the writer's byte order |
| CryLayout.SortedKeys | SynergyLib/FileFormat/CryEngine/CryChunks.cs:109 | the ordering of ids has the same members as the key set, the same count, and is strictly increasing |
| CryLayout.Entries | SynergyLib/FileFormat/CryEngine/CryChunks.cs:110-116 | table entry i carries chunk i's header and its written size |
| CryLayout.OffsetFacts | SynergyLib/FileFormat/CryEngine/CryChunks.cs:110-116 | every computed offset is a multiple of 4 and at least 24 + 20·count; each one is the previous offset plus the previous size rounded up to 4 |
| CryLayout.OffsetsOrdered | SynergyLib/FileFormat/CryEngine/CryChunks.cs:110-116 | an earlier chunk ends at or before a later one starts, so chunks never overlap and nonempty ones have strictly increasing offsets |
| CryLayout.PayloadSlice | SynergyLib/FileFormat/CryEngine/CryChunks.cs:121-126 | the bytes of chunk i sit in the payload exactly at its computed offset |
| CryLayout.ImageLength | SynergyLib/FileFormat/CryEngine/CryChunks.cs:101-127 | the written file ends where the last chunk ends, or is the 24-byte header when there are no chunks |
| CryLayout.EmptyImage | SynergyLib/FileFormat/CryEngine/CryChunks.cs:101-107 | with zero chunks the output is exactly the 24-byte header |
| CryLayout.RelayIdempotent | SynergyLib/FileFormat/CryEngine/CryChunks.cs:110-116 | recomputing the offsets of a laid-out sequence changes nothing |
| CryLayout.RelaidKeys | SynergyLib/FileFormat/CryEngine/CryChunks.cs:113 | rewriting the chunks' offsets keeps the set of ids |
| CryLayout.OrderedRelaid | SynergyLib/FileFormat/CryEngine/CryChunks.cs:109-116 | ordering the re-laid chunks gives the laid-out order |
| CryLayout.ImageRelaid | SynergyLib/FileFormat/CryEngine/CryChunks.cs:101-127 | writing a container whose offsets were already rewritten gives the same bytes |
| CryLayout.RelaidIdempotent | SynergyLib/FileFormat/CryEngine/CryChunks.cs:113 | a second WriteTo rewrites no offset |
| SynergyChunks.CryChunks.WriteTo | SynergyLib/FileFormat/CryEngine/CryChunks.cs:101-127 | every chunk's own header offset is overwritten with the computed one; the write succeeds exactly when there are no chunks, or the writer starts at 0 and the last offset fits an int32 (past that, the wrapped offset fails the position check); a failure is a layout mismatch; on success the writer gains the container image |
| SynergyChunks.CryChunks.WriteHead | SynergyLib/FileFormat/CryEngine/CryChunks.cs:102-107 | appends magic, pad, type, version, the table offset 20 and the count |
| SynergyChunks.CryChunks.LayOut | SynergyLib/FileFormat/CryEngine/CryChunks.cs:109-116 | the fresh entry array holds the laid-out headers and sizes in id order, and the chunk map now carries the same offsets |
| ContainerIO.LayEntries | WiiUStreamTool/FileFormat/CryEngine/CryFile.cs:81-90 | the offset loop fills a fresh array with exactly the laid-out entries (offsets kept unwrapped, see Left out) |
| ContainerIO.LaidEntries | WiiUStreamTool/FileFormat/CryEngine/CryFile.cs:82-90 | entries built with each chunk's computed offset and its size are exactly the table entries of the laid-out chunks |
| ContainerIO.WriteTable | SynergyLib/FileFormat/CryEngine/CryChunks.cs:118-119 | appends the table image: one 20-byte entry per chunk, in order |
| SynergyChunks.CryChunks.WriteChunks | SynergyLib/FileFormat/CryEngine/CryChunks.cs:121-126 | padding before each chunk lands on its computed offset, so the loop succeeds exactly when there are no chunks, or the writer started at 0 and every offset fits an int32; it appends the payload |
| SynergyChunks.PositionCheck | SynergyLib/FileFormat/CryEngine/CryChunks.cs:122-123 | the position after padding equals the chunk's offset as an int32 exactly when the writer started at 0 and the offset fits an int32 |
| CryLayout.AddressableAt | SynergyLib/FileFormat/CryEngine/CryChunks.cs:113-115 | every computed offset is non-negative and fits an int32 when the last one does |
| CryLayout.ImageAddressable | SynergyLib/FileFormat/CryEngine/CryChunks.cs:113-115 | a container whose image is shorter than 2^31 bytes has every offset in an int32, before and after the relay |
| SynergyChunks.CryChunks.WriteBody | SynergyLib/FileFormat/CryEngine/CryChunks.cs:118-126 | appends the table and then the payload; it fails, with a layout mismatch, exactly when there are chunks and the writer did not start at 0 or an offset passes int.MaxValue |
| SynergyChunks.WrittenImage | SynergyLib/FileFormat/CryEngine/CryChunks.cs:101-127 | header, table and payload written in that order make up exactly the container image |
| CryRoundTrip.DecodeImage | SynergyLib/FileFormat/CryEngine/CryChunks.cs:39-127 | on any stream, the bytes WriteTo writes for a container of registered chunks that all reread, and whose image fits an int32, read back to its file type, version and re-laid chunks |
| CryRoundTrip.DecodeExtended | SynergyLib/FileFormat/CryEngine/CryChunks.cs:39-99 | bytes that start with such an image read back to the container on a stream that cannot seek, and a seekable stream refuses any bytes after the image at the end-of-stream check |
| CryRoundTrip.FileHeadFields | SynergyLib/FileFormat/CryEngine/CryChunks.cs:102-107 | the header holds magic and pad, type, version, table offset 20 and the count, at bytes 0, 8, 12, 16 and 20 |
| CryRoundTrip.DecodeHeadAt | SynergyLib/FileFormat/CryEngine/CryChunks.cs:40-51 | a written header with a defined type and version and a count below 2^31 decodes to that type, version, table offset 20 and count |
| CryRoundTrip.DecodeLaidOut | SynergyLib/FileFormat/CryEngine/CryChunks.cs:39-99 | a header, a table and chunks laid out in id order, each of which reads back, decode to the chunks by id; a seekable stream that does not end with the last chunk is refused with the position pair |
| CryRoundTrip.ParseTableAt | SynergyLib/FileFormat/CryEngine/CryChunks.cs:53-57 | a written table parses back to the entries it was written from |
| CryRoundTrip.LoadLaidOut | SynergyLib/FileFormat/CryEngine/CryChunks.cs:58-90 | when every table entry's chunk reads back at its offset under a fresh id, loading gives back the chunks by id and ends after the last one |
| CryRoundTrip.SizesChecked | SynergyLib/FileFormat/CryEngine/CryChunks.cs:92-94 | the size check always passes on a written table |
| CryRoundTrip.ByIdRelaid | SynergyLib/FileFormat/CryEngine/CryChunks.cs:89 | the chunks added by id during the read are exactly the re-laid chunk map |
| SynergyChunks.MeshSubsetsZones | SynergyLib/FileFormat/CryEngine/CryChunks.cs:156-157 | one zone per MeshSubsets chunk, covering its whole written range, and no other zone |
| SynergyChunks.SourceInfoZones | SynergyLib/FileFormat/CryEngine/CryChunks.cs:160-161 | one zone per SourceInfo chunk, covering bytes offset+8 up to offset+12, and no other zone |
| SynergyChunks.IgnoredIff | SynergyLib/FileFormat/CryEngine/CryChunks.cs:150-164 | a byte index is ignored if and only if it is 7, 31 or 51, inside a MeshSubsets chunk, or in bytes 8 to 11 of a SourceInfo chunk |
| SynergyChunks.CryChunks.Compare | SynergyLib/FileFormat/CryEngine/CryChunks.cs:166-172 | succeeds exactly when the two byte strings agree outside the zones and have equal length; a byte difference is reported before a length difference |
| SynergyChunks.CryChunks.Reencode | SynergyLib/FileFormat/CryEngine/CryChunks.cs:146-172 | re-encoding and comparing computes `Recheck`: the result and the re-laid chunks |
| SynergyChunks.CryChunks.FromStream | SynergyLib/FileFormat/CryEngine/CryChunks.cs:133-179 | the result is exactly `Certify` of the input: decode, then re-encode and compare |
| SynergyChunks.CertifyImage | SynergyLib/FileFormat/CryEngine/CryChunks.cs:133-179 | every container SynergyLib writes whose chunks reread and whose image fits an int32 passes FromStream and yields its re-laid contents |
| WiiUChunks.CryFile.ReadFrom | WiiUStreamTool/FileFormat/CryEngine/CryFile.cs:19-72 | the outcome and the new state are exactly those of the WiiU decoder (eight-byte magic, no pad byte, smaller registry) |
| WiiUChunks.CryFile.constructor | WiiUStreamTool/FileFormat/CryEngine/CryFile.cs:13-17 | a new container has no chunks and file type and version 0 |
| WiiUChunks.CryFile.WriteTo | WiiUStreamTool/FileFormat/CryEngine/CryFile.cs:74-101 | is the loop's `Outcome`: it succeeds exactly when every chunk's own offset equals the position reached before it and no chunk is physical bones (whose WriteTo throws NotImplemented); the output is header, table and each chunk followed by padding to 4 |
| WiiUChunks.CryFile.WriteOrdered | WiiUStreamTool/FileFormat/CryEngine/CryFile.cs:75-100 | the same for an explicit chunk order |
| WiiUChunks.CryFile.WriteHead | WiiUStreamTool/FileFormat/CryEngine/CryFile.cs:75-79 | appends the eight-byte magic, type, version, 20 and the count |
| WiiUChunks.CryFile.WriteChunks | WiiUStreamTool/FileFormat/CryEngine/CryFile.cs:95-100 | is `LoopFrom`: fails with a layout mismatch at the first chunk off its position, with NotImplemented at the first physical-bones chunk, and otherwise appends each chunk followed by padding |
| WiiUChunks.LoopFromOutcome | WiiUStreamTool/FileFormat/CryEngine/CryFile.cs:95-100 | once i chunks have passed, the loop succeeds exactly when every check passes and no chunk is physical bones; with no physical bones its failure is a layout mismatch, with every check passing it is NotImplemented |
| WiiUChunks.OutcomeAt | WiiUStreamTool/FileFormat/CryEngine/CryFile.cs:83-100 | the loop started at the end of the table is WriteTo's outcome, which succeeds exactly when every check passes and no chunk is physical bones |
| WiiUChunks.AcceptedAt | WiiUStreamTool/FileFormat/CryEngine/CryFile.cs:85-97 | the offsets checked are the chunks' own; the computed offsets go only to the table copies |
| WiiUChunks.PlacedPositioned | WiiUStreamTool/FileFormat/CryEngine/CryFile.cs:83-100 | chunks that already carry the computed offsets pass the writer's position check |
| WiiUChunks.WrittenImage | WiiUStreamTool/FileFormat/CryEngine/CryFile.cs:74-101 | after a SynergyLib-style layout the WiiU writer's checks pass exactly when every offset fits an int32; it fails with NotImplemented exactly when a chunk is physical bones, and writes the shared image plus padding to a multiple of 4 |
| WiiUChunks.WrittenBytes | WiiUStreamTool/FileFormat/CryEngine/CryFile.cs:95-100 | what WriteTo writes for a laid-out container is its image with the end padded to 4 |
| WiiUChunks.WrittenDone | WiiUStreamTool/FileFormat/CryEngine/CryFile.cs:83-100 | WriteTo's loop passes every chunk of a laid-out container with no physical-bones chunk whose image fits an int32 |
| WiiUChunks.WiiUStable | WiiUStreamTool/FileFormat/CryEngine/CryDefinitions/Chunks/CompiledPhysicalBonesChunk.cs:15-37 | with no physical-bones chunk, every chunk of a WiiU container rereads, since the physical bones are the only class the WiiU reader decodes |
| WiiUChunks.WrittenDecodes | WiiUStreamTool/FileFormat/CryEngine/CryFile.cs:19-72 | ReadFrom on what WriteTo writes for a container whose chunks reread gives the container back, except that a seekable stream refuses the trailing padding |
| WiiUChunks.WrittenReadBack | WiiUStreamTool/FileFormat/CryEngine/CryFile.cs:70-71 | as written, with no physical-bones chunk the writer succeeds, and the WiiU reader refuses its output on a seekable stream when the image length is not a multiple of 4 and reads it back otherwise |
| WiiUChunks.CryFile.WriteAligned | WiiUStreamTool/FileFormat/CryEngine/CryFile.cs:95-100 | corrected writer (pad before each chunk): is `AlignedOutcome`; succeeds exactly when each own offset is the padded position and no chunk is physical bones, and writes header, table and payload |
| WiiUChunks.CryFile.WriteAlignedOrdered | WiiUStreamTool/FileFormat/CryEngine/CryFile.cs:95-100 | the same for an explicit chunk order |
| WiiUChunks.CryFile.WriteAlignedChunks | WiiUStreamTool/FileFormat/CryEngine/CryFile.cs:95-100 | corrected chunk loop, `AlignedFrom`: fails with a layout mismatch at the first chunk that does not line up, with NotImplemented at the first physical-bones chunk, and otherwise appends the payload |
| WiiUChunks.AlignedFromOutcome | WiiUStreamTool/FileFormat/CryEngine/CryFile.cs:95-100 | as LoopFromOutcome, for the corrected loop |
| WiiUChunks.AlignedOutcomeAt | WiiUStreamTool/FileFormat/CryEngine/CryFile.cs:83-100 | the corrected loop started at the end of the table is WriteAligned's outcome, which succeeds exactly when every check passes and no chunk is physical bones |
| WiiUChunks.PlacedLined | WiiUStreamTool/FileFormat/CryEngine/CryFile.cs:83-100 | laid-out chunks pass the corrected writer's check |
| WiiUChunks.AlignedImage | WiiUStreamTool/FileFormat/CryEngine/CryFile.cs:74-101 | after a layout the corrected writer's checks pass exactly when every offset fits an int32, it fails with NotImplemented exactly when a chunk is physical bones, and it writes exactly the shared container image |
| WiiUChunks.AlignedDone | WiiUStreamTool/FileFormat/CryEngine/CryFile.cs:83-100 | the corrected loop passes every chunk of a laid-out container with no physical-bones chunk whose image fits an int32 |
| WiiUChunks.AlignedReadBack | WiiUStreamTool/FileFormat/CryEngine/CryFile.cs:19-101 | with no physical-bones chunk the corrected writer succeeds, and its output reads back through the WiiU reader on any stream |
| Dialects.NodeReread | SynergyLib/FileFormat/CryEngine/CryDefinitions/Chunks/NodeChunk.cs:28-75 | the container's reader for a node chunk succeeds exactly when NodeChunk.ReadFrom does on the chunk's bytes, and keeps a body as long as the bytes after the header |
| Dialects.CountedReread | SynergyLib/FileFormat/CryEngine/CryDefinitions/Chunks/CompiledPhysicalProxyChunk.cs:14-41 | the reader for a list chunk succeeds exactly when the chunk's ReadFrom does on its bytes |
| Dialects.BonesReread | WiiUStreamTool/FileFormat/CryEngine/CryDefinitions/Chunks/CompiledPhysicalBonesChunk.cs:15-33 | the WiiU reader for physical bones succeeds exactly when their ReadFrom does with the size as an int32, and keeps the bytes after the header |
| Dialects.NodeChunkRead | SynergyLib/FileFormat/CryEngine/CryChunks.cs:87-88 | a node chunk the container reads is the node NodeChunk.ReadFrom finds in its bytes: same header, its bytes are that node's WriteTo, and its written size is the declared size |
| Dialects.DecodedChunk | SynergyLib/FileFormat/CryEngine/CryChunks.cs:87-88 | a chunk of a decoded class that reads lies within the data, has the header at the front of its bytes, and holds what the class's ReadFrom gives for them |
| Dialects.NodeChunkOf | SynergyLib/FileFormat/CryEngine/CryDefinitions/Chunks/NodeChunk.cs:28-75 | a node chunk whose header and body are what the reader found in some bytes carries the node ReadFrom finds there, and that node's WriteTo bytes |
| Dialects.NodeRereadBody | SynergyLib/FileFormat/CryEngine/CryDefinitions/Chunks/NodeChunk.cs:28-51 | what the node reader keeps is the body of the node ReadFrom found, whose header is the first 16 bytes read little-endian |
| Dialects.NodeRereadOf | SynergyLib/FileFormat/CryEngine/CryDefinitions/Chunks/NodeChunk.cs:28-75 | the node reader keeps the body bytes of the node ReadFrom finds |
| Dialects.NodeChunkBytes | SynergyLib/FileFormat/CryEngine/CryDefinitions/Chunks/NodeChunk.cs:53-75 | a node chunk with a node's header and body bytes is exactly that node's WriteTo output |
| Dialects.BodyBytesFixPosition | SynergyLib/FileFormat/CryEngine/CryDefinitions/Chunks/NodeChunk.cs:53-75 | two node bodies that differ only in the position's words are equal only when those words are |
| Dialects.NodeRereadOfBytes | SynergyLib/FileFormat/CryEngine/CryDefinitions/Chunks/NodeChunk.cs:41 | reading what NodeChunk.WriteTo wrote and writing again gives the node with its position divided by 100 |
| Dialects.ShrunkWordsSame | SynergyLib/FileFormat/CryEngine/CryDefinitions/Chunks/NodeChunk.cs:41 | with both positions exactly encodable, a position and its hundredth are written the same exactly at the origin |
| Dialects.NodeRereads | SynergyLib/FileFormat/CryEngine/CryDefinitions/Chunks/NodeChunk.cs:41-65 | a node chunk holding WriteTo's bytes rereads exactly when the position divided by 100 is written as the original; with both encodable, exactly when the node is at the origin |
| Dialects.CountedRereadsItself | SynergyLib/FileFormat/CryEngine/CryDefinitions/Chunks/CompiledPhysicalProxyChunk.cs:14-41 | reading a list chunk's WriteTo output and writing it again gives the same bytes after the header, when the record codec round-trips |
| Dialects.ProxiesReread | SynergyLib/FileFormat/CryEngine/CryDefinitions/Chunks/CompiledPhysicalProxyChunk.cs:14-41 | a physical-proxy chunk holding its WriteTo output rereads in the SynergyLib container |
| Dialects.MorphTargetsReread | SynergyLib/FileFormat/CryEngine/CryDefinitions/Chunks/CompiledMorphTargetsChunk.cs:14-39 | a morph-target chunk holding its WriteTo output rereads in the SynergyLib container |
| Dialects.BonesChunkRead | WiiUStreamTool/FileFormat/CryEngine/CryDefinitions/Chunks/CompiledPhysicalBonesChunk.cs:15-33 | a physical-bones chunk the WiiU container reads is one the bones' ReadFrom accepts at exactly the declared size; the bytes after the header are kept |
| NodeChunks.NodeChunk.constructor | SynergyLib/FileFormat/CryEngine/CryDefinitions/Chunks/NodeChunk.cs:9-24 | the defaults: identity transform with zero bottom row, zero position, unit quaternion, unit scale, controller ids -1, empty properties |
| NodeChunks.NodeOf | SynergyLib/FileFormat/CryEngine/CryDefinitions/Chunks/NodeChunk.cs:28-51 | a node that reads has its header from the first 16 bytes and ends exactly at the expected size, which is 16 + 204 + the properties' length |
| NodeChunks.NodeChunk.ReadFrom | SynergyLib/FileFormat/CryEngine/CryDefinitions/Chunks/NodeChunk.cs:28-51 | the outcome and the new fields are exactly `NodeOf` |
| NodeChunks.ReadNode | SynergyLib/FileFormat/CryEngine/CryDefinitions/Chunks/NodeChunk.cs:28-51 | the field-by-field read computes `NodeOf`, with the body in the header's byte order |
| NodeChunks.NodeChunk.WriteTo | SynergyLib/FileFormat/CryEngine/CryDefinitions/Chunks/NodeChunk.cs:53-75 | appends the node image: header in base order, then the body in the requested order |
| NodeChunks.WriteNode | SynergyLib/FileFormat/CryEngine/CryDefinitions/Chunks/NodeChunk.cs:53-75 | appends the node image and leaves the writer's byte order as it found it |
| NodeChunks.NodeChunk.Set | SynergyLib/FileFormat/CryEngine/CryDefinitions/Chunks/NodeChunk.cs:28-51 | after the fields are assigned from a read node, the chunk's value is that node |
| NodeChunks.IdsRoundTrip | SynergyLib/FileFormat/CryEngine/CryDefinitions/Chunks/NodeChunk.cs:32-36 | the 64-byte name and the four ids read back |
| NodeChunks.IdNumbersRoundTrip | SynergyLib/FileFormat/CryEngine/CryDefinitions/Chunks/NodeChunk.cs:33-36 | object, parent, child count and material ids read back in that order |
| NodeChunks.FlagsRoundTrip | SynergyLib/FileFormat/CryEngine/CryDefinitions/Chunks/NodeChunk.cs:37-39 | the group flags, written as 1 or 0 with two zero padding bytes, read back |
| NodeChunks.PoseReadBack | SynergyLib/FileFormat/CryEngine/CryDefinitions/Chunks/NodeChunk.cs:40-43 | transform, rotation and scale read back; position comes back divided by 100 |
| NodeChunks.ControllersRoundTrip | SynergyLib/FileFormat/CryEngine/CryDefinitions/Chunks/NodeChunk.cs:44-46 | the three controller ids read back in order |
| NodeChunks.PropertiesRoundTrip | SynergyLib/FileFormat/CryEngine/CryDefinitions/Chunks/NodeChunk.cs:47 | the length-prefixed properties read back and end 4 + length bytes later |
| NodeChunks.NodeImageReadBack | SynergyLib/FileFormat/CryEngine/CryDefinitions/Chunks/NodeChunk.cs:28-77 | a node image has the written size and reads back, with the position word triple divided by 100 |
| NodeChunks.NodeReadBackShrinks | SynergyLib/FileFormat/CryEngine/CryDefinitions/Chunks/NodeChunk.cs:41 | as written, reading what WriteTo wrote gives the position divided by 100, so a nonzero position does not round-trip |
| NodeChunks.CorrectedNodeRoundTrip | SynergyLib/FileFormat/CryEngine/CryDefinitions/Chunks/NodeChunk.cs:65 | writing the position multiplied by 100 makes every node read back exactly |
| CountedChunks.CountedOf | SynergyLib/FileFormat/CryEngine/CryDefinitions/Chunks/CompiledPhysicalProxyChunk.cs:14-30 | a list chunk that reads has its header from the first 16 bytes and as many items as the count that follows |
| CountedChunks.CountedRoundTrip | SynergyLib/FileFormat/CryEngine/CryDefinitions/Chunks/CompiledPhysicalProxyChunk.cs:14-41 | a written list chunk reads back exactly, given an item codec that round-trips |
| CountedChunks.CountedSizeIsLength | SynergyLib/FileFormat/CryEngine/CryDefinitions/Chunks/CompiledPhysicalProxyChunk.cs:41 | WrittenSize is 16 + 4 + the sum of the items' sizes, and equals the image length |
| CountedChunks.ReadCounted | SynergyLib/FileFormat/CryEngine/CryDefinitions/Chunks/CompiledPhysicalProxyChunk.cs:14-30 | the reading steps compute `CountedOf` |
| CountedChunks.WriteCounted | SynergyLib/FileFormat/CryEngine/CryDefinitions/Chunks/CompiledPhysicalProxyChunk.cs:32-39 | appends the header in base order, the count and each item in list order |
| CountedChunks.CompiledPhysicalProxyChunk.constructor | SynergyLib/FileFormat/CryEngine/CryDefinitions/Chunks/CompiledPhysicalProxyChunk.cs:8-12 | a new chunk has no proxies |
| CountedChunks.CompiledMorphTargetsChunk.constructor | SynergyLib/FileFormat/CryEngine/CryDefinitions/Chunks/CompiledMorphTargetsChunk.cs:8-12 | a new chunk has no targets |
| CountedChunks.CompiledPhysicalProxyChunk.ReadFrom | SynergyLib/FileFormat/CryEngine/CryDefinitions/Chunks/CompiledPhysicalProxyChunk.cs:14-30 | proxies read with size hint -1; the outcome, header and list equal `CountedOf` |
| CountedChunks.CompiledPhysicalProxyChunk.WriteTo | SynergyLib/FileFormat/CryEngine/CryDefinitions/Chunks/CompiledPhysicalProxyChunk.cs:32-39 | appends the count-prefixed image of the proxies |
| CountedChunks.CompiledMorphTargetsChunk.ReadFrom | SynergyLib/FileFormat/CryEngine/CryDefinitions/Chunks/CompiledMorphTargetsChunk.cs:14-30 | targets read with size hint 16; the outcome, header and list equal `CountedOf` |
| CountedChunks.CompiledMorphTargetsChunk.WriteTo | SynergyLib/FileFormat/CryEngine/CryDefinitions/Chunks/CompiledMorphTargetsChunk.cs:32-39 | appends the count-prefixed image of the targets |
| Records.ReadItems | SynergyLib/FileFormat/CryEngine/CryDefinitions/Chunks/CompiledPhysicalProxyChunk.cs:19-26 | the counted loop computes `ReadList`: exactly count items, in order |
| Records.WriteItems | SynergyLib/FileFormat/CryEngine/CryDefinitions/Chunks/CompiledPhysicalProxyChunk.cs:36-37 | the loop appends every item's image in list order |
| Records.ReadListBytes | SynergyLib/FileFormat/CryEngine/CryDefinitions/Chunks/CompiledPhysicalProxyChunk.cs:19-37 | reading back written items gives the items and ends after their bytes |
| Records.ListLength | SynergyLib/FileFormat/CryEngine/CryDefinitions/Chunks/CompiledPhysicalProxyChunk.cs:41 | the items' image is as long as the sum of their sizes |
| Records.ReadListFails | SynergyLib/FileFormat/CryEngine/CryDefinitions/Chunks/CompiledPhysicalProxyChunk.cs:23-26 | a failure at some item is the failure of the whole list |
| Records.ReadList | SynergyLib/FileFormat/CryEngine/CryDefinitions/Chunks/CompiledPhysicalProxyChunk.cs:19-26 | a list that reads has exactly count items |
| Records.BytesAt | SynergyLib/FileFormat/CryEngine/CryDefinitions/Chunks/NodeChunk.cs:32 | a fixed-width byte field exists exactly when enough bytes remain, and has that width |
| Records.ZeroesAt | WiiUStreamTool/FileFormat/CryEngine/CryDefinitions/Chunks/CompiledPhysicalBonesChunk.cs:19 | the zero-byte check: it computes `PadAt` and on success consumes the bytes checked |
| Records.WordsRoundTrip | SynergyLib/FileFormat/CryEngine/CryDefinitions/Structs/CompiledBone.cs:29-30 | fixed groups of 32-bit words (matrices and vectors) read back |
| Bones.BoneAt | SynergyLib/FileFormat/CryEngine/CryDefinitions/Structs/CompiledBone.cs:24-39 | any expected size other than 584 is refused as not supported |
| Bones.BoneRoundTrip | SynergyLib/FileFormat/CryEngine/CryDefinitions/Structs/CompiledBone.cs:24-55 | a written bone reads back, in the same field order, ending after its bytes |
| Bones.BoneSizeIsLength | SynergyLib/FileFormat/CryEngine/CryDefinitions/Structs/CompiledBone.cs:57 | with 104-byte physics records the image is 4 + 2·104 + 4 + 2·48 + 256 + 4·4 = 584 bytes |
| Bones.LinksRoundTrip | SynergyLib/FileFormat/CryEngine/CryDefinitions/Structs/CompiledBone.cs:33-36 | limb id, parent offset, child count, child offset read back in that order |
| Bones.RestRoundTrip | SynergyLib/FileFormat/CryEngine/CryDefinitions/Structs/CompiledBone.cs:28-36 | everything after the physics records reads back, name as a fixed 256-byte field |
| Bones.FloatsRoundTrip | SynergyLib/FileFormat/CryEngine/CryDefinitions/Structs/CompiledBone.cs:28-30 | mass and the two 3×4 matrices read back as words |
| Bones.CompiledBone.ReadFrom | SynergyLib/FileFormat/CryEngine/CryDefinitions/Structs/CompiledBone.cs:24-39 | the outcome, fields and position are exactly `BoneAt` |
| Bones.CompiledBone.WriteTo | SynergyLib/FileFormat/CryEngine/CryDefinitions/Structs/CompiledBone.cs:41-55 | appends the bone image in the requested byte order and restores the writer's order |
| Bones.ReadBone | SynergyLib/FileFormat/CryEngine/CryDefinitions/Structs/CompiledBone.cs:24-39 | the field-by-field read computes `BoneAt` |
| Bones.WriteBone | SynergyLib/FileFormat/CryEngine/CryDefinitions/Structs/CompiledBone.cs:41-55 | appends the bone image in the field order of ReadFrom |
| Bones.CompiledBone.constructor | SynergyLib/FileFormat/CryEngine/CryDefinitions/Structs/CompiledBone.cs:9-20 | a new bone has an empty name and the given physics for both records |
| Bones.CompiledBone.Set | SynergyLib/FileFormat/CryEngine/CryDefinitions/Structs/CompiledBone.cs:24-39 | after the fields are assigned from a read bone, the bone's value is that bone |
| WiiUStructs.CompiledBone.ReadFrom | WiiUStreamTool/FileFormat/CryEngine/CryDefinitions/Structs/CompiledBone.cs:20-36 | allocates a fresh two-entry physics array; the outcome and fields are exactly `BoneAt` over 104-byte geometries |
| WiiUStructs.ReadPhysics | WiiUStreamTool/FileFormat/CryEngine/CryDefinitions/Structs/CompiledBone.cs:23-25 | the fresh array holds the two geometries read one after another with size 104 |
| WiiUStructs.CompiledBone.WriteTo | WiiUStreamTool/FileFormat/CryEngine/CryDefinitions/Structs/CompiledBone.cs:38-40 | always fails as not implemented |
| WiiUStructs.CompiledBone.constructor | WiiUStreamTool/FileFormat/CryEngine/CryDefinitions/Structs/CompiledBone.cs:8-18 | a new bone has no physics array and an empty name |
| WiiUStructs.BoneReadsLayout | WiiUStreamTool/FileFormat/CryEngine/CryDefinitions/Structs/CompiledBone.cs:20-36 | a bone laid out in the shared 584-byte layout reads back in the WiiU field order |
| WiiUStructs.BoneConsumesItsSize | WiiUStreamTool/FileFormat/CryEngine/CryDefinitions/Structs/CompiledBone.cs:20-36 | a bone that reads consumes exactly 584 bytes |
| WiiUStructs.GeometryRead | WiiUStreamTool/FileFormat/CryEngine/CryDefinitions/Structs/PhysicsGeometry.cs:18-30 | any expected size other than 104 is refused as not supported; a geometry that reads consumes exactly 104 bytes |
| WiiUStructs.GeometryRoundTrip | WiiUStreamTool/FileFormat/CryEngine/CryDefinitions/Structs/PhysicsGeometry.cs:18-30 | geometry, flags, five vectors and the matrix read back in that order |
| WiiUStructs.BoundsRoundTrip | WiiUStreamTool/FileFormat/CryEngine/CryDefinitions/Structs/PhysicsGeometry.cs:22-23 | the two bound vectors read back |
| WiiUStructs.SpringsRoundTrip | WiiUStreamTool/FileFormat/CryEngine/CryDefinitions/Structs/PhysicsGeometry.cs:24-26 | spring angle, tension and damping read back |
| WiiUStructs.GeometrySound | WiiUStreamTool/FileFormat/CryEngine/CryDefinitions/Structs/PhysicsGeometry.cs:18-30 | the geometry codec round-trips, so it can stand for the physics records of a bone |
| WiiUStructs.WriteGeometry | WiiUStreamTool/FileFormat/CryEngine/CryDefinitions/Structs/PhysicsGeometry.cs:32-34 | always fails as not implemented |
| PhysicalBones.PhysicalBonesOf | WiiUStreamTool/FileFormat/CryEngine/CryDefinitions/Chunks/CompiledPhysicalBonesChunk.cs:15-33 | a chunk that reads has its header from the first 16 bytes, and the 32 bytes after it are all zero |
| PhysicalBones.CompiledPhysicalBonesChunk.ReadFrom | WiiUStreamTool/FileFormat/CryEngine/CryDefinitions/Chunks/CompiledPhysicalBonesChunk.cs:15-33 | the outcome, header and bone list are exactly `PhysicalBonesOf` |
| PhysicalBones.ReadBones | WiiUStreamTool/FileFormat/CryEngine/CryDefinitions/Chunks/CompiledPhysicalBonesChunk.cs:23-29 | the loop whose bound grows computes `BonesFrom` |
| PhysicalBones.ReachGrows | WiiUStreamTool/FileFormat/CryEngine/CryDefinitions/Chunks/CompiledPhysicalBonesChunk.cs:27 | the loop bound never shrinks: it starts at the initial count and rises with each bone read |
| PhysicalBones.ReachCovers | WiiUStreamTool/FileFormat/CryEngine/CryDefinitions/Chunks/CompiledPhysicalBonesChunk.cs:25-29 | the bound is at least the initial count and at least every bone's index plus its child count |
| PhysicalBones.BonesFromStops | WiiUStreamTool/FileFormat/CryEngine/CryDefinitions/Chunks/CompiledPhysicalBonesChunk.cs:25-29 | the loop keeps the bones read so far, goes on past each bone only while the count is below the bound, and stops at the bound |
| PhysicalBones.BonesMatchReach | WiiUStreamTool/FileFormat/CryEngine/CryDefinitions/Chunks/CompiledPhysicalBonesChunk.cs:21-29 | the list holds exactly as many bones as the final bound, at least the initial count, and every bone's index plus child count stays within the list |
| PhysicalBones.FixedBonesFillChunk | WiiUStreamTool/FileFormat/CryEngine/CryDefinitions/Chunks/CompiledPhysicalBonesChunk.cs:16-32 | with 152-byte bones, a chunk that reads has size 48 + 152·bones, holds exactly the initial count, and no bone raises the bound |
| PhysicalBones.CompiledPhysicalBonesChunk.WriteTo | WiiUStreamTool/FileFormat/CryEngine/CryDefinitions/Chunks/CompiledPhysicalBonesChunk.cs:35-37 | always fails as not implemented |
| PhysicalBones.CompiledPhysicalBonesChunk.constructor | WiiUStreamTool/FileFormat/CryEngine/CryDefinitions/Chunks/CompiledPhysicalBonesChunk.cs:9-13 | a new chunk has no bones |
| WiiUStructs.ColorReadsBytes | WiiUStreamTool/FileFormat/CryEngine/CryDefinitions/Structs/Rgba32.cs:15-22 | a colour of size 4 reads exactly when four bytes remain, and is those bytes in order R, G, B, A |
| WiiUStructs.ColorAt | WiiUStreamTool/FileFormat/CryEngine/CryDefinitions/Structs/Rgba32.cs:15-22 | a colour that reads is four bytes |
| WiiUStructs.ColorValueIsWord | WiiUStreamTool/FileFormat/CryEngine/CryDefinitions/Structs/Rgba32.cs:9-13 | `Value` is the little-endian word of the four bytes |
| WiiUStructs.Rgba32.ReadFrom | WiiUStreamTool/FileFormat/CryEngine/CryDefinitions/Structs/Rgba32.cs:15-22 | any size other than 4 is refused; otherwise the four bytes are read and the position advances by 4 |
| WiiUStructs.Rgba32.WriteTo | WiiUStreamTool/FileFormat/CryEngine/CryDefinitions/Structs/Rgba32.cs:24-29 | appends R, G, B, A whatever the byte order, so writing after reading reproduces the input |
| WiiUStructs.Rgba32.SetValue | WiiUStreamTool/FileFormat/CryEngine/CryDefinitions/Structs/Rgba32.cs:9-13 | setting `Value` sets the four byte fields to its little-endian bytes |
| WiiUStructs.Rgba32.constructor | WiiUStreamTool/FileFormat/CryEngine/CryDefinitions/Structs/Rgba32.cs:8-13 | a new colour has all four channels 0 |
| WiiUStructs.FaceAt | WiiUStreamTool/FileFormat/CryEngine/CryDefinitions/Structs/CompiledIntFace.cs:15-21 | a face that reads has three indices and lies within the data |
| WiiUStructs.FaceRoundTrip | WiiUStreamTool/FileFormat/CryEngine/CryDefinitions/Structs/CompiledIntFace.cs:15-21 | three 16-bit indices read back in order, six bytes in all |
| WiiUStructs.CompiledIntFace.ReadFrom | WiiUStreamTool/FileFormat/CryEngine/CryDefinitions/Structs/CompiledIntFace.cs:15-21 | any size other than 6 is refused; otherwise `Faces` is the three indices read and the position advances by 6 |
| WiiUStructs.CompiledIntFace.SetFace | WiiUStreamTool/FileFormat/CryEngine/CryDefinitions/Structs/CompiledIntFace.cs:10-13 | writing `Face_k` changes `Faces[k]` and nothing else |
| WiiUStructs.CompiledIntFace.constructor | WiiUStreamTool/FileFormat/CryEngine/CryDefinitions/Structs/CompiledIntFace.cs:8-13 | a new face has all three indices 0 |
| WiiUStructs.CompiledIntFace.WriteTo | WiiUStreamTool/FileFormat/CryEngine/CryDefinitions/Structs/CompiledIntFace.cs:23-25 | always fails as not implemented |
| Channels.NewChannel | SynergyLib/FileFormat/DirectDrawSurface/PixelFormats/Channels/ChannelDefinition.cs:19-40 | fails exactly for negative bits, with ArgumentOutOfRange; a result is empty exactly when it equals `Empty` |
| Channels.ZeroWidthIsEmpty | SynergyLib/FileFormat/DirectDrawSurface/PixelFormats/Channels/ChannelDefinition.cs:27-31 | zero bits give `Empty` (Typeless, all fields 0), which `IsEmpty` holds for |
| Channels.DefaultMaskIsLowBits | SynergyLib/FileFormat/DirectDrawSurface/PixelFormats/Channels/ChannelDefinition.cs:20-23 | without a mask, 1 to 32 bits give the mask 2^bits - 1: exactly the low bits set |
| Channels.DefaultMask | SynergyLib/FileFormat/DirectDrawSurface/PixelFormats/Channels/ChannelDefinition.cs:20-23 | the 32 case (all ones) and the shift case agree with 2^bits - 1 |
| Channels.DefaultChannel | SynergyLib/FileFormat/DirectDrawSurface/PixelFormats/Channels/ChannelDefinition.cs:19-40 | 1 to 32 bits with no mask give the channel with mask 2^bits - 1 |
| Channels.Equals | SynergyLib/FileFormat/DirectDrawSurface/PixelFormats/Channels/ChannelDefinition.cs:152-156 | holds exactly when type, shift, bits and mask are all equal |
| Channels.ChannelOf | SynergyLib/FileFormat/DirectDrawSurface/PixelFormats/Channels/ChannelDefinition.cs:130-148 | mask 0 gives `Empty`; otherwise shift is the lowest set bit, bits spans up to the highest set bit, and the result is the constructor's default-mask channel |
| Channels.FromMask | SynergyLib/FileFormat/DirectDrawSurface/PixelFormats/Channels/ChannelDefinition.cs:130-148 | the two shifting loops compute `ChannelOf` |
| Channels.MaskChannel | SynergyLib/FileFormat/DirectDrawSurface/PixelFormats/Channels/ChannelDefinition.cs:137-147 | for a nonzero mask, shift < shift + bits ≤ 32 and the constructor accepts these values |
| Channels.LowestSetBit | SynergyLib/FileFormat/DirectDrawSurface/PixelFormats/Channels/ChannelDefinition.cs:137-140 | the shift loop stops at the lowest set bit: it is set, every bit below it is clear, and it lies below the highest |
| Channels.HighestSetBit | SynergyLib/FileFormat/DirectDrawSurface/PixelFormats/Channels/ChannelDefinition.cs:142-147 | the width loop stops after the highest set bit: the mask lies in [2^(n-1), 2^n) for bit length n |
| Channels.RawValue | SynergyLib/FileFormat/DirectDrawSurface/PixelFormats/Channels/ChannelDefinition.cs:108 | the shifted and masked raw value never exceeds the mask |
| Channels.ContiguousRoundTrip | SynergyLib/FileFormat/DirectDrawSurface/PixelFormats/Channels/ChannelDefinition.cs:19-23 | a contiguous mask gives back its own shift and width, and Mask shifted left by Shift is the mask again |
| Channels.DecodeValueAsUnorm | SynergyLib/FileFormat/DirectDrawSurface/PixelFormats/Channels/ChannelDefinition.cs:104-128 | an empty channel decodes to 0; the only failure is a division by zero |
| Channels.UnormRange | SynergyLib/FileFormat/DirectDrawSurface/PixelFormats/Channels/ChannelDefinition.cs:110-114 | for unsigned kinds it fails exactly on a zero mask; otherwise the result lies in [0, 2^(outBits mod 32) - 1] (C# takes shift counts mod 32), is 0 for raw 0 and the maximum for raw = Mask |
| Channels.UnsignedRange | SynergyLib/FileFormat/DirectDrawSurface/PixelFormats/Channels/ChannelDefinition.cs:110-114 | the unsigned scaling ((1 << outBits) - 1)·v / Mask, for v ≤ Mask, has the same failure, range and end points |
| Channels.SnormRange | SynergyLib/FileFormat/DirectDrawSurface/PixelFormats/Channels/ChannelDefinition.cs:115-124 | for signed kinds whose mask is the low `bits` bits the result lies in [0, 2^outBits - 1] and is in the upper half exactly when the raw sign bit is clear |
| Channels.SignedRange | SynergyLib/FileFormat/DirectDrawSurface/PixelFormats/Channels/ChannelDefinition.cs:115-124 | the signed scaling on a raw value of `bits` bits: same range, upper half exactly when the sign bit is clear |
| PixelFormats.NewYuv | SynergyLib/FileFormat/DirectDrawSurface/PixelFormats/YuvPixelFormat.cs:14-34 | channels not supplied are empty, and Bpp is the largest bits + shift over Y, U, V, A and X |
| PixelFormats.MaxOf | SynergyLib/FileFormat/DirectDrawSurface/PixelFormats/YuvPixelFormat.cs:27-33 | the maximum is at least every element and equal to one of them |
| PixelFormats.Equals | SynergyLib/FileFormat/DirectDrawSurface/PixelFormats/YuvPixelFormat.cs:46-51 | holds exactly when the five channels and the alpha type agree |
| PixelFormats.EqualsIsEquality | SynergyLib/FileFormat/DirectDrawSurface/PixelFormats/YuvPixelFormat.cs:46-51 | for constructed formats, Equals is equality |
| PixelFormats.ToB8G8R8A8 | SynergyLib/FileFormat/DirectDrawSurface/PixelFormats/YuvPixelFormat.cs:36-44 | always fails as not implemented |
| Dds.DdsFile.constructor | SynergyLib/FileFormat/DirectDrawSurface/DdsFile.cs:18-24 | keeps the header, the optional DXT10 header and the data |
| Dds.DataOffset | SynergyLib/FileFormat/DirectDrawSurface/DdsFile.cs:73-75 | 148 with a DXT10 header, else 128 |
| Dds.NumImages | SynergyLib/FileFormat/DirectDrawSurface/DdsFile.cs:85 | 1 without a DXT10 header |
| Dds.NumMipmaps | SynergyLib/FileFormat/DirectDrawSurface/DdsFile.cs:87 | 1 unless the mipmap-count flag is set |
| Dds.DimensionsExclusive | SynergyLib/FileFormat/DirectDrawSurface/DdsFile.cs:91-97 | at most one of Is1D, Is2D and Is3D holds, and none for a cube map |
| Dds.NumFaces | SynergyLib/FileFormat/DirectDrawSurface/DdsFile.cs:120-127 | between 0 and 6 |
| Dds.FacesCounted | SynergyLib/FileFormat/DirectDrawSurface/DdsFile.cs:120-127 | a cube map has as many faces as face bits set; any other surface has 1 |
| Dds.MipDim | SynergyLib/FileFormat/DirectDrawSurface/DdsFile.cs:99-131 | defined exactly for 0 ≤ m < NumMipmaps, else ArgumentOutOfRange; the value is at least 1 |
| Dds.MipDimHalves | SynergyLib/FileFormat/DirectDrawSurface/DdsFile.cs:99-131 | mip 0 is max(1, dim) when the flag is set and 1 otherwise; each next mip is max(1, previous / 2) |
| Dds.DepthOrNumFaces | SynergyLib/FileFormat/DirectDrawSurface/DdsFile.cs:133 | never negative; fails only for an out-of-range mip of a surface that is not a cube map |
| Dds.Blocks | SynergyLib/FileFormat/DirectDrawSurface/DdsFile.cs:106-107 | at least 1, and for a positive dimension 4·(blocks - 1) < dim ≤ 4·blocks |
| Dds.RowBytes | SynergyLib/FileFormat/DirectDrawSurface/DdsFile.cs:110-112 | width·bpp bits rounded up to whole bytes: 8·(r - 1) < width·bpp ≤ 8·r |
| Dds.Pitch | SynergyLib/FileFormat/DirectDrawSurface/DdsFile.cs:104-113 | defined exactly for the mips that exist |
| Dds.SliceSize | SynergyLib/FileFormat/DirectDrawSurface/DdsFile.cs:135-147 | defined exactly for the mips that exist |
| Dds.SliceIsPitchTimesRows | SynergyLib/FileFormat/DirectDrawSurface/DdsFile.cs:104-147 | a slice is the pitch times the rows (block rows, or the height), with 32-bit wrap-around |
| Dds.MipmapSize | SynergyLib/FileFormat/DirectDrawSurface/DdsFile.cs:149 | defined exactly for the mips that exist |
| Dds.RangeSum | SynergyLib/FileFormat/DirectDrawSurface/DdsFile.cs:151 | a negative count is out of range; a count up to the mip count fails only by a checked-sum overflow; a count beyond the mip count always fails |
| Dds.SumStep | SynergyLib/FileFormat/DirectDrawSurface/DdsFile.cs:151 | the sum of the first m + 1 mip sizes is the sum of the first m plus mip m |
| Dds.ImageDataOffset | SynergyLib/FileFormat/DirectDrawSurface/DdsFile.cs:155-161 | an image index outside [0, NumImages) is refused; inside it the offset exists whenever the image size does |
| Dds.ImagesAdjacent | SynergyLib/FileFormat/DirectDrawSurface/DdsFile.cs:155-161 | image 0 starts at DataOffset and image i + 1 where image i ends |
| Dds.FacesAdjacent | SynergyLib/FileFormat/DirectDrawSurface/DdsFile.cs:163-167 | face 0 starts with its image and face k + 1 where face k ends |
| Dds.MipsAdjacent | SynergyLib/FileFormat/DirectDrawSurface/DdsFile.cs:169-174 | mip 0 starts with its face and mip m + 1 where mip m ends |
| Dds.SlicesAdjacent | SynergyLib/FileFormat/DirectDrawSurface/DdsFile.cs:176-180 | slice 0 starts with its mip and slice s + 1 where slice s ends |
| Dds.SliceOrFaceDataOffset | SynergyLib/FileFormat/DirectDrawSurface/DdsFile.cs:182-184 | for a cube map the index picks the face's mip, otherwise the slice of face 0 |
| Dds.DdsFile.SetBufferUnchecked | SynergyLib/FileFormat/DirectDrawSurface/DdsFile.cs:234 | replaces the data with the buffer |
| Dds.DdsFile.Body | SynergyLib/FileFormat/DirectDrawSurface/DdsFile.cs:81 | exists exactly when the data reaches DataOffset, and is the data after the headers |
| Dds.Uncompressed | SynergyLib/FileFormat/DirectDrawSurface/DdsFile.cs:240-291 | RGB wins over every other flag, then YUV, then luminance; with only the alpha flag the format is RGBA; with none of these flags it is unknown; this branch never goes to the FourCC resolver |
| Dds.PixelFormatOf | SynergyLib/FileFormat/DirectDrawSurface/DdsFile.cs:236-310 | the format goes to the FourCC resolver exactly when the FourCC flag is set (corrected padding mask) |
| Dds.RgbBitMaskBits | SynergyLib/FileFormat/DirectDrawSurface/DdsFile.cs:247-249 | the corrected mask has exactly the low RgbBitCount bits set, 32 included |
| Dds.PaddingBits | SynergyLib/FileFormat/DirectDrawSurface/DdsFile.cs:247-249 | a padding bit is set exactly when it is in the low mask, in no colour mask, and not in the alpha mask when alpha is present |
| Dds.ColourPaddingBits | SynergyLib/FileFormat/DirectDrawSurface/DdsFile.cs:247-249 | the padding channel covers the low RgbBitCount bits minus the colour and alpha masks |
| Dds.PixelFormatAsWritten | SynergyLib/FileFormat/DirectDrawSurface/DdsFile.cs:236-310 | the decision with the source's `(1u << RgbBitCount) - 1u` mask; FourCC formats are resolved |
| Dds.NoPaddingAt32AsWritten | SynergyLib/FileFormat/DirectDrawSurface/DdsFile.cs:247-249 | as written, a 32-bit format gets a zero low mask and so no padding channel |
| Dds.X8R8G8B8Padding | SynergyLib/FileFormat/DirectDrawSurface/DdsFile.cs:246-257 | for X8R8G8B8, as written the padding channel is empty; corrected, it is Typeless with shift 24 and 8 bits |
| Dds.X8R8G8B8Mask | SynergyLib/FileFormat/DirectDrawSurface/DdsFile.cs:247-249 | the corrected padding mask of X8R8G8B8 is 0xFF000000 |
| Dds.TopPadding | SynergyLib/FileFormat/DirectDrawSurface/DdsFile.cs:247-249 | with three 8-bit colour masks in the low 24 bits and no alpha, the corrected padding is the top byte |

## Left out

- Floating-point values are not computed. Float fields travel as their raw 32-bit words. NodeChunk's position passes through a `Floats` parameter that decodes and encodes words.
- `ChannelDefinition.DecodeValueAsFloat` and the float default branch of `DecodeValueAsUnorm` are not modelled (floating point). The latter is the `ThroughFloat` result.
- The FourCC and DXT10 `PixelFormatResolver` lookup is a `Resolved` result carrying the FourCC code (a table lookup into code that is not part of this model).
- The `RgbaPixelFormat` and `LumiPixelFormat` classes are not part of this model. They appear as the `PixelFormat` datatype's variants with their channels.
- `DdsFile`'s stream and byte-array constructors copy the header with `Marshal`, and its span and memory views are unsafe memory. The model takes the header as a record and the data as a byte sequence.
- Stream I/O is not modelled. The reader and writer are classes over byte sequences.
- `NativeReader` and `NativeWriter` are not part of this model. Their reads, writes, scoped byte order, `EnsurePositionOrThrow`, `EnsureZeroesOrThrow` and `WritePadding` are modelled from how the core uses them.
- `ChunkHeader` and `ChunkSizeChunk` are not part of this model. They are taken as 16 bytes (type, raw version, offset, id) and 20 bytes (header and size). The file header and the table are written in the writer's byte order and read little-endian; a chunk's own embedded header is always written little-endian (NodeChunk.cs:54 and the two list chunks' line 33). The one-argument `ChunkSizeChunk.WriteTo` is not part of this model; the entry is written through the header's and the size's own writes.
- The ChunkType, CryFileType and CryFileVersion enums are not part of this model. Their values are the CryEngine chunk and file codes.
- `Crc32.CryE` and `ControllerIdComputed` in SynergyLib's `CompiledBone` are not part of this model; the controller id is a plain field.
- The element codecs `CompiledBonePhysics`, `CompiledPhysicalProxy`, `CompiledMorphTarget` and `CompiledPhysicalBone` are not part of this model. Each is a `RecordCodec` parameter that reads and writes values. The read loops' reuse of one element object is not modelled.
- The container reads `NodeChunk`, `CompiledPhysicalProxyChunk` and `CompiledMorphTargetsChunk` (SynergyLib) and `CompiledPhysicalBonesChunk` (WiiU) with their own ReadFrom, and keeps for each the bytes its WriteTo would emit after the header (`Dialects`). Every other registered class is not part of this model: its body is the opaque bytes of its declared size, so its ReadFrom and WriteTo are taken to be exact inverses. WiiU's other classes are likewise opaque.
- `SynergyChunks.CryChunks.ReadFrom` and `WiiUChunks.CryFile.ReadFrom` take the chunk codecs they need (float words for the node position, record codecs, the bones' child count) as parameters.
- `CryRoundTrip.DecodeImage`, `CryRoundTrip.DecodeLaidOut`, `CryRoundTrip.LoadLaidOut` and `SynergyChunks.CertifyImage` hold for containers whose chunks reread (`Stable`): a node with a position whose hundredth is written differently (NodeChunk.cs:41), a list chunk whose record codec does not round-trip, or a decoded chunk whose body its ReadFrom refuses does not come back, as `Dialects.NodeRereads` states for nodes.
- Names and properties are bytes; UTF-8 encoding and decoding are not modelled.
- `SignedRange` and `SnormRange` require outBits between 1 and 31 and a full contiguous mask of at least 2 bits. Outside that the C# shift by outBits - 1 and the int arithmetic wrap, and the range statement is not made.
- `MipDimHalves` requires m + 1 < 32, because C#'s `>>` takes its count modulo 32.
- `NextId` bounds the new id only when no header id is int.MaxValue; `NextIdWraps` states what happens otherwise.
- `SynergyChunks.CryChunks.WriteTo` requires nothing of the writer. Its success condition says the position check is absolute: a writer that does not start at 0 fails unless there are no chunks.
- `SynergyChunks.CertifyImage`, `CryRoundTrip.DecodeImage`, `WiiUChunks.WrittenReadBack` and `WiiUChunks.AlignedReadBack` cover images shorter than 2^31 bytes whose chunk classes are the registry's and whose chunk fields fit in 32 bits (`Writable`). Past 2^31 bytes the writers fail (`Addressable`), as the C# position check does.
- `ContainerIO.LayEntries` keeps each computed offset as an unbounded integer, where C# computes `24 + Count * 20` and `prev + (Size + 3) / 4 * 4` in `int` and wraps. The table bytes are the same, since an offset is written modulo 2^32, and any container whose last offset passes int.MaxValue fails the position check of both writers. After such a failed write, SynergyLib's chunk map holds the unwrapped offsets where C# holds the wrapped ones.
- `(Size + 3) / 4 * 4` is taken without overflow: a single chunk of 2^31 - 3 bytes or more, whose C# rounding wraps, is not modelled separately.
- `SynergyChunks.CryChunks.ReadFrom`, `WiiUChunks.CryFile.ReadFrom` and `NodeChunks.NodeChunk.ReadFrom` state nothing about the object's fields after a failure. The C# methods have by then assigned the type and version, added the chunks read so far, or set the header.
- `CryRoundTrip.CheckSizesIff` can report a size mismatch in this model only for a list chunk whose record codec writes a different number of bytes than it reads. Nodes, physical bones and the opaque classes always have a written size equal to the declared size (`Dialects.NodeChunkRead`, `Dialects.BonesChunkRead`, `CryRoundTrip.ReadChunkSound`).
- `QuickModProgramCommand` and `TestDevProgramCommand` are left out (file-system, audio, texture-library and concurrency work).
- The glTF models and the enum-only files (`MeshChunkFlags`, `ETexModMoveType`, `DdsCaps1`, `ExportFlags`) are left out; they have no behaviour.
- `MeshTangent` is left out (floating point).
- Where DdsFile.cs:247-249 gives a different mask from the evident intent, the rest of the model uses the corrected mask (see Findings).

## Findings

| source | as written | input that shows it | evidently intended | confidence | as-written member | corrected member |
|---|---|---|---|---|---|---|
| WiiUStreamTool/FileFormat/CryEngine/CryFile.cs:95-100 | `WriteTo` pads to 4 after every chunk, the last one included. Its own `ReadFrom` requires a seekable stream to end where the last chunk ends (lines 70-71). | any container whose image length is not a multiple of 4, e.g. one chunk of written size 18 | pad before each chunk, as CryChunks.cs:121-126 does, so that the file ends with the last chunk | not executed | WiiUChunks.WrittenReadBack | WiiUChunks.CryFile.WriteAligned; WiiUChunks.AlignedReadBack |
| SynergyLib/FileFormat/CryEngine/CryDefinitions/Chunks/NodeChunk.cs:41 | the reader divides `Position` by 100, but the writer (line 65) stores it unscaled | any node with a nonzero position | the writer multiplies by 100, so that a node read back equals the node written | not executed | NodeChunks.NodeReadBackShrinks | NodeChunks.CorrectedNodeRoundTrip |
| SynergyLib/FileFormat/DirectDrawSurface/DdsFile.cs:247-249 | `unchecked((1u << pf.RgbBitCount) - 1u)` is 0 when RgbBitCount is 32, because C# takes the shift count modulo 32; the padding channel then comes out empty | X8R8G8B8 (RgbBitCount 32, masks 0xFF0000, 0xFF00, 0xFF, no alpha) | all 32 low bits set, giving padding mask 0xFF000000: a Typeless channel with shift 24 and 8 bits | not executed | Dds.PixelFormatAsWritten; Dds.NoPaddingAt32AsWritten; Dds.X8R8G8B8Padding | Dds.PixelFormatOf; Dds.RgbBitMaskBits; Dds.X8R8G8B8Mask |
