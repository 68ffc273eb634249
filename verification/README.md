# Verification of the CFDP application and the table tools

This Dafny project models the parts of the repository that move table and file data, and proves what they promise.

- `cf/` is the CFDP application (`apps/cf`). The chunk list records which pieces of a file have arrived. The gap computation says what is missing. The circular list holds transactions on the heap. The streaming checksum and the PDU codec have their own modules; `WireFormat` lays every PDU out byte by byte, with its numbers written out. Others follow a NAK from the receiver's gaps through the wire into the sender's list, and back as resent pieces. On top is the class-2 receiver: a state machine over values (`ReceiverSpec`), what every event and every tick does to every field (`ReceiverTable`, `ReceiverEvents`), safety, retries and progress over all its runs, and the handlers as the code has them (`Receiver`), proved to do what the state machine does.
- `tools/` holds `elf2cfetbl`, which turns ELF objects into table files, with the structures of both laid out byte by byte (`ElfFormat`, `TableContract`), `tblCRCTool`, which computes the CRC of a table file, the contract between the two, and the builder of command packets.

The code in question updates things in place, and so does the model: arrays that are shifted, nodes linked on the heap, a codec with a position and a validity flag, a transaction with its fields, structures whose bytes are swapped in memory. Every such method is proved equal to a function of its inputs and the old state; the properties are then proved of these functions, for all inputs and all runs.

`dafny verify dfyconfig.toml` checks the whole project.

## Main results

1. **Chunk list.** The in-place array is sorted, disjoint and within capacity after any additions. One addition loses bytes if and only if it finds the list full and touches nothing in it; a run without such additions covers exactly what was added, in whatever order.
2. **Gaps.** What is reported is the first maximal missing runs, if and only if a condition on the arguments and the list holds that a caller can check.
3. **NAK path.** The NAK for any chunk list is encoded, sent, received and decoded to itself; what the sender then records is exactly what the receiver misses, up to two exceptions that are stated exactly. The sender splits the missing runs into PDUs; however it does, receiving the pieces completes the file if and only if a condition on the first piece holds. Over several rounds with lost, doubled and reordered pieces the missing bytes never grow, and if something gets through in each round the file is completed.
4. **Codec.** For each kind of PDU, decoding what was encoded gives the same value and uses exactly its bytes, if and only if every field fits its place. What is read is what stands in the bytes, flag by flag and number by number, and reading fails exactly when it has to; a packet is taken for a NAK exactly if its bytes are those of one.
5. **Receiver, safety.** Over every run a FIN without an error means: metadata and EOF agree, every byte has been received in this transaction or was claimed by the chunk list it started with, and the checksum is the one of the EOF. From an empty list all bytes have arrived. A byte so claimed (other than the last of the file) that never arrives goes unnoticed if and only if it is a zero, given time for the checksum. Errors are never cleared. Which PDUs end a transaction, and with which code each failure is reported, is told exactly; the acknowledgement of the FIN ends it, and nothing is sent afterwards. Each event leaves the checked bytes in the file if and only if it is not data that differs from them.
6. **Receiver, retries and progress.** Without PDUs, missing data is given up at exactly one tick. The transaction is reported and freed within a stated number of ticks if and only if the inactivity timer lasts until the NAK deadline; otherwise it is never freed. A receiver that has everything says so if and only if completeness is noticed in the right place and the ticks and the inactivity timer last until a stated tick, which counts the wakeups of the checksum.
7. **Circular list.** Every operation is the matching sequence operation on the heap; traversal, from any node, visits each node once in order although the callback unlinks nodes.
8. **CRC.** The table loop is CRC-16/ARC, for every split of the reads; bursts of up to 16 bits and odd errors are always detected.
9. **ELF translation.** Two classes, two byte orders, two hosts and any layout: the same table gives the same file. Both formats are stated byte by byte: where the tool finds each number it uses, and where it puts it.
10. **Cross-tool contract.** The CRC tool sees in every table file exactly the bytes of the object.

## Where the code differs from what one would expect

The model follows the code. These are proved, with the exact condition or a concrete input:

- `CF_ChunkList_ComputeGaps` ignores start and limit for an empty list, reports the gap before the first chunk even with limit 0, and lets a chunk beyond the end of the file stretch the last gap (`GapTheory.ReportedIsMissingIff`). The sender rejects a stretched request (`NakRequests.StretchedNakIsUseless`).
- A request for no bytes, other than (0, 0), is recorded as an empty chunk (`NakRequests.OneRequest`). The piece sent for it is empty and takes nothing off the list (`Resending.ResendPiece`), so requests behind it wait.
- An EOF that reports an error is never acknowledged, although `cf_cfdp_r.c` line 344 says that every EOF is: it frees the transaction before the acknowledgement is sent (`ReceiverTable.EofIsAcknowledgedIff`).
- A file of no bytes is reported as having a gap of no bytes, so it never becomes complete on its own, and its NAK asks for metadata (`GapTheory.EmptyFileGapIff`, `NakRequests.EmptyFileAsksForMetadata`).
- With room for one chunk only, a NAK step can take a file with a gap for complete (`ReceiverRetries.NakOverlooksGapIff`).
- A receiver that gives up on an incomplete file because of inactivity, not because of the NAK limit, is never freed without a further PDU (`ReceiverRetries.MissingIsFreedIff`, `ReceiverRetries.InactiveIsStuck`).
- If the chunk list is full and a missing run at the beginning of the file comes in small pieces, the first piece is forgotten although it was asked for (`Resending.PiecesAreKeptIff`, `Resending.SmallPieceIsLost`).
- If the last data arrives before the first NAK has gone out, the NAK step notes completeness but makes no FIN due: the receiver stays silent and in the end reports inactivity for a complete file (`ReceiverProgress.WholeIsReportedIff`, `ReceiverProgress.SilentRunEndsInError`).
- A checksum budget of 0 bytes per wakeup, which the table check refuses but a command can set (`cf_cmd.c` line 1006), keeps a receiver with anything left to digest from ever reporting success (`ReceiverProgress.WholeIsReportedIff`).
- File data that arrives after the checksum has been compared is written over the file unnoticed (`ReceiverIntegrity.LateDataGoesUnnoticed`).
- `CF_CRC_Finalize` clears the working word only if bytes were pending (`FileChecksum.FinalizedClearsIff`).
- The chunk list and the status of a recycled transaction are not reset: `CF_CFDP_ResetTransaction` returns the list as it is, and `CF_ChunkListReset` is only called at initialization. A new transaction starts with any list and any status, and what the list claims counts as received: a FIN without an error is sent for a file of which a zero byte never arrived (`RecycledChunks.ClaimedNeedNotArrive`).
- `elf2cfetbl.c` line 2374 means to test whether the extra character of a symbol name is printable, and tests the terminator: any one extra character matches (`ElfTheory.ObjectNamesAre`). Sections without a name are skipped by the scan, whatever their type.
- Symbols are read from one symbol structure behind the start of the table, whatever its entry size (`ElfTheory.SymbolsInsideIff`).
- A second packet of the same `MiniCmdUtil` object carries the checksum 0 (`CommandPacket.SecondPacketHasNoChecksum`).

## Model

| member | source | states |
|---|---|---|
| ChunkTheory.CanonicalForm | apps/cf/fsw/src/cf_chunk.c:280-291 | a sorted list of disjoint, non-touching, non-empty chunks is the only one with its set of covered bytes, so every statement about coverage pins the list |
| ChunkTheory.AddedKeepsWf | apps/cf/fsw/src/cf_chunk.c:236-272 | adding keeps the list sorted, disjoint, non-touching and within `max_chunks` |
| ChunkTheory.AddedCovers | apps/cf/fsw/src/cf_chunk.c:236-272 | what one addition does to every byte: the union, except when the list is full and nothing touches the new chunk; then the smaller of the new chunk and the first smallest one is forgotten, and nothing else |
| ChunkTheory.AddedIsUnionIff | apps/cf/fsw/src/cf_chunk.c:236-272 | one addition loses no byte if and only if the list has a free slot or a chunk that touches the new one |
| ChunkTheory.AddedInside | apps/cf/fsw/src/cf_chunk.c:280-291 | adding bytes that one chunk already covers changes nothing |
| ChunkTheory.RunIsSound | apps/cf/fsw/src/cf_chunk.c:280-291 | after any sequence of additions the list is well formed, within capacity, and claims no byte that nobody added |
| ChunkTheory.RunIsExact | apps/cf/fsw/src/cf_chunk.c:280-291 | a sequence of additions that never overflows covers exactly the union of everything added |
| ChunkTheory.RunIsOrderIndependent | apps/cf/fsw/src/cf_chunk.c:280-291 | two such sequences that add the same bytes end with equal lists, whatever their order and repetition |
| ChunkList.ChunkList.constructor | apps/cf/fsw/src/cf_chunk.c:336-342 | `CF_ChunkListInit` on fresh memory: an empty, valid list with cleared slots |
| ChunkList.ChunkList.Reset | apps/cf/fsw/src/cf_chunk.c:350-354 | empties the list and clears every slot |
| ChunkList.ChunkList.EraseRange | apps/cf/fsw/src/cf_chunk.c:45-55 | the in-place shift removes exactly the chunks of the range, and none if the range is empty or reversed |
| ChunkList.ChunkList.EraseChunk | apps/cf/fsw/src/cf_chunk.c:63-72 | removes exactly one chunk |
| ChunkList.ChunkList.InsertChunk | apps/cf/fsw/src/cf_chunk.c:80-93 | the in-place shift makes room at the index and moves nothing else |
| ChunkList.ChunkList.FindInsertPosition | apps/cf/fsw/src/cf_chunk.c:101-125 | the halving search returns the lower bound: chunks before it start below the new one, none from it on does |
| ChunkList.ChunkList.CombinePrevious | apps/cf/fsw/src/cf_chunk.c:133-162 | combines with the chunk before the position exactly when the two touch, into their union |
| ChunkList.ChunkList.CombineNext | apps/cf/fsw/src/cf_chunk.c:170-206 | combines with all following chunks that the new one reaches, exactly when there is one |
| ChunkList.ChunkList.FindSmallestSize | apps/cf/fsw/src/cf_chunk.c:214-228 | the loop finds the first chunk of least size; index 0 for an empty list |
| ChunkList.ChunkList.Insert | apps/cf/fsw/src/cf_chunk.c:236-272 | from a lower bound, the in-place steps (combine, insert, evict or drop) together are the one addition `Added` |
| ChunkList.ChunkList.Add | apps/cf/fsw/src/cf_chunk.c:280-291 | `CF_ChunkListAdd` on the array is the addition `Added`, and keeps the list valid |
| ChunkList.ChunkList.RemoveFromFirst | apps/cf/fsw/src/cf_chunk.c:299-317 | the list afterwards is the one without the first bytes of its first chunk, or without that chunk if it was no longer than asked |
| ChunkList.FrontRemovedFacts | apps/cf/fsw/src/cf_chunk.c:299-317 | taking bytes off the front uncovers exactly those bytes of the first chunk and keeps the list well formed |
| ChunkList.ChunkList.GetFirstChunk | apps/cf/fsw/src/cf_chunk.c:325-328 | the first chunk, or the null pointer if and only if the list is empty |
| ChunkList.ChunkList.ComputeGaps | apps/cf/fsw/src/cf_chunk.c:362-425 | the gaps passed to the callback, in order, and their number, for all arguments with start at most total, including zero limits, empty lists and chunks beyond the end |
| GapTheory.MissingRunsAreMissing | apps/cf/fsw/src/cf_chunk.c:362-425 | independent reference: the missing runs are non-empty, sorted, disjoint and maximal, and consist of exactly the uncovered bytes of the range |
| GapTheory.ReportedIsMissingIff | apps/cf/fsw/src/cf_chunk.c:362-425 | `CF_ChunkList_ComputeGaps` reports the first max_gaps missing runs if and only if: an empty list is asked from 0 on, a gap before the first chunk is asked for with a limit above 0, and no chunk beyond the end stretches the last reported gap |
| GapTheory.NoGapIff | apps/cf/fsw/src/cf_cfdp_r.c:132-145 | asking for one gap from 0 on answers none if and only if every byte of a non-empty file is covered, even with chunks beyond the end |
| GapTheory.EmptyFileGapIff | apps/cf/fsw/src/cf_cfdp_r.c:132-145 | for a file of no bytes a gap is reported unless a chunk at offset 0 is recorded |
| CircularList.CListNode.InitNode | apps/cf/fsw/src/cf_clist.c:41-45 | a node linked to itself in both directions |
| CircularList.CList.InsertFront | apps/cf/fsw/src/cf_clist.c:53-74 | next and prev stay mutually inverse around exactly the nodes, and the sequence gets the node in front |
| CircularList.CList.InsertBack | apps/cf/fsw/src/cf_clist.c:82-104 | the same at the back, with the head unchanged unless the list was empty |
| CircularList.CList.InsertAfter | apps/cf/fsw/src/cf_clist.c:168-181 | the sequence gets the node behind the given one, also behind the last |
| CircularList.CList.Remove | apps/cf/fsw/src/cf_clist.c:133-160 | the sequence loses exactly this node, which is left linked to itself; the head moves on if it was the head |
| CircularList.CList.Pop | apps/cf/fsw/src/cf_clist.c:112-125 | returns the head, unlinked, and leaves the rest; null if and only if the list was empty |
| CircularList.CList.Traverse | apps/cf/fsw/src/cf_clist.c:189-220 | from any node of the list: visits a prefix of the nodes in ring order from there on, each once, up to the first call that asks to stop, although the callback may unlink the node it is given; the others that were not unlinked stay, in their order |
| CircularList.CList.TraverseR | apps/cf/fsw/src/cf_clist.c:228-266 | the same backwards, from the node before the given one round to it |
| CircularList.CallsMean | apps/cf/fsw/src/cf_clist.c:189-220 | how far a traversal gets: to the last node if no call asks to stop, else to the first call that does |
| CircularList.LeftMeans | apps/cf/fsw/src/cf_clist.c:189-220 | a node stays in the list exactly if the traversal did not reach it or the callback did not unlink it |
| CircularList.OnlyOfLeft | apps/cf/fsw/src/cf_clist.c:189-220 | a traversal that starts at the head leaves exactly what it did not unlink, in order |
| CircularList.LeftBackIsLeft | apps/cf/fsw/src/cf_clist.c:228-266 | walking back leaves what walking forth over the reversed list leaves |
| CircularList.OnlyKeepsOrder | apps/cf/fsw/src/cf_clist.c:189-220 | what a traversal leaves stands in the order it stood in before |
| CircularList.OrderOfTraversal | apps/cf/fsw/src/cf_clist.c:189-266 | the i-th node of a traversal, in numbers: k + i around the ring forwards, k - 1 - i backwards |
| FileChecksum.Crc.Start | apps/cf/fsw/src/cf_crc.c:42-45 | all fields zero |
| FileChecksum.Crc.Digest | apps/cf/fsw/src/cf_crc.c:53-70 | the byte loop does what feeding the bytes one after the other does, from any state between words |
| FileChecksum.Crc.Finalize | apps/cf/fsw/src/cf_crc.c:78-90 | pending bytes are shifted to the top of the word and added; otherwise nothing changes |
| FileChecksum.DigestedConcat | apps/cf/fsw/src/cf_crc.c:53-70 | data may be split over calls in any way |
| FileChecksum.FinalizedIsChecksum | apps/cf/fsw/src/cf_crc.c:53-90 | the finished result is the sum modulo 2^32 of the big-endian 4-byte words of the data, zero-padded to a word boundary (section 4.2 of CCSDS 727.0-B-5) |
| FileChecksum.FinalizedMidway | apps/cf/fsw/src/cf_crc.c:53-90 | a result may be taken midway and the stream continued: the later result is that of the data with the earlier part padded |
| FileChecksum.ChecksumAdds | apps/cf/fsw/src/cf_crc.c:53-90 | the checksum of a concatenation at a word boundary is the wrapped sum of the checksums |
| FileChecksum.FinalizedClearsIff | apps/cf/fsw/src/cf_crc.c:78-90 | finishing always leaves index 0, but the working word is 0 if and only if there were pending bytes or the last whole word is 0; the unit test only looks at the first case |
| FileChecksum.HoleIsNoticedIff | apps/cf/fsw/src/cf_crc.c:53-90 | reading one byte as zero changes the checksum if and only if the byte is not zero |
| FileChecksum.ChecksumInNumbers | apps/cf/fsw/src/cf_crc.c:53-90 | in numbers: the weights of the bytes of a word; missing ones count as zeros |
| PduEncoder.GetValueEncodedSize | apps/cf/fsw/src/cf_codec.c:327-338 | the least number of bytes from 1 to 8 that holds the value |
| PduEncoder.Encoder.CheckSize | apps/cf/fsw/src/cf_codec.c:269-283 | the position moves on exactly if there is room, never beyond the limit; validity, once lost, stays lost |
| PduEncoder.Encoder.DoEncodeChunk | apps/cf/fsw/src/cf_codec.c:291-301 | a place in the buffer exactly if the encoder is valid and there is room; otherwise the encoder is invalid |
| PduEncoder.Encoder.EncodeIntegerInSize | apps/cf/fsw/src/cf_codec.c:346-363 | the back-to-front loop writes the value modulo 256^n, most significant byte first |
| PduEncoder.StoreUint16 | apps/cf/fsw/src/cf_codec.c:142-147 | the two bytes most significant first, everything else in the buffer unchanged |
| PduEncoder.StoreUint32 | apps/cf/fsw/src/cf_codec.c:154-163 | the same for four bytes |
| PduEncoder.FieldSetVal | apps/cf/fsw/src/cf_codec.c:53-57 | the field reads back as the value cut to its width, every field that shares no bit with it reads as before, and no other byte changes |
| PduEncoder.Encoder.EncodeHeaderWithoutSize | apps/cf/fsw/src/cf_codec.c:371-399 | writes all of the header except the two bytes of the data length, which keep what was there |
| PduEncoder.Encoder.EncodeHeaderFinalSize | apps/cf/fsw/src/cf_codec.c:407-429 | fills in those two bytes exactly if the encoder is valid and has room for a fixed header, and closes the encoder in any case |
| PduEncoder.Encoder.EncodeFileDirectiveHeader | apps/cf/fsw/src/cf_codec.c:437-447 | one byte, or an invalid encoder |
| PduEncoder.Encoder.EncodeLv | apps/cf/fsw/src/cf_codec.c:455-477 | length and data, or an invalid encoder if they do not fit or a null pointer stands where data is due; bytes before the position and beyond the limit are never touched |
| PduEncoder.Encoder.EncodeTlv | apps/cf/fsw/src/cf_codec.c:485-515 | the same for a TLV, whose entity id is encoded as an integer of the given length |
| PduEncoder.Encoder.EncodeSegmentRequest | apps/cf/fsw/src/cf_codec.c:523-533 | both offsets or an invalid encoder |
| PduEncoder.Encoder.EncodeAllTlv | apps/cf/fsw/src/cf_codec.c:541-549 | the loop writes all TLVs or ends with an invalid encoder |
| PduEncoder.Encoder.EncodeAllSegments | apps/cf/fsw/src/cf_codec.c:557-565 | the loop writes all segment requests or ends with an invalid encoder |
| PduEncoder.Encoder.EncodeMetadata | apps/cf/fsw/src/cf_codec.c:573-589 | the layout of a metadata PDU, all or nothing valid |
| PduEncoder.Encoder.EncodeFileDataHeader | apps/cf/fsw/src/cf_codec.c:597-626 | the optional continuation state and segments, then the offset |
| PduEncoder.Encoder.EncodeEof | apps/cf/fsw/src/cf_codec.c:634-648 | the layout of an EOF PDU with its TLVs |
| PduEncoder.Encoder.EncodeFin | apps/cf/fsw/src/cf_codec.c:656-670 | the layout of a FIN PDU with its TLVs |
| PduEncoder.Encoder.EncodeAck | apps/cf/fsw/src/cf_codec.c:678-693 | the layout of an ACK PDU |
| PduEncoder.Encoder.EncodeNak | apps/cf/fsw/src/cf_codec.c:701-713 | the layout of a NAK PDU with its segment requests |
| PduEncoder.WroteThen | apps/cf/fsw/src/cf_codec.c:269-301 | two encoding steps in sequence are one step that writes both, and fail if either fails: the sticky failure state composes |
| PduDecoder.Decoder.CheckSize | apps/cf/fsw/src/cf_codec.c:269-283 | the same room check for the decoder |
| PduDecoder.Decoder.DoDecodeChunk | apps/cf/fsw/src/cf_codec.c:309-319 | the next bytes of the buffer, or an invalid decoder |
| PduDecoder.Decoder.LoadUint16 | apps/cf/fsw/src/cf_codec.c:204-213 | the value of two bytes, most significant first |
| PduDecoder.Decoder.LoadUint32 | apps/cf/fsw/src/cf_codec.c:220-233 | the value of four bytes, most significant first |
| PduDecoder.Decoder.DecodeIntegerInSize | apps/cf/fsw/src/cf_codec.c:738-758 | the value of the next n bytes in a 64-bit accumulator, 0 if there are too few |
| PduDecoder.Decoder.DecodeHeader | apps/cf/fsw/src/cf_codec.c:766-804 | reads the header as `ReadHeader` does, which `WireFormat.HeaderIsRead` tells bit by bit; unsupported lengths are an error result that leaves the decoder valid |
| PduDecoder.Decoder.DecodeFileDirectiveHeader | apps/cf/fsw/src/cf_codec.c:812-824 | the directive code |
| PduDecoder.Decoder.DecodeLv | apps/cf/fsw/src/cf_codec.c:832-842 | length and data, or an invalid decoder |
| PduDecoder.Decoder.DecodeTlv | apps/cf/fsw/src/cf_codec.c:850-873 | type, length and data; the entity id type is read as an integer |
| PduDecoder.Decoder.DecodeSegmentRequest | apps/cf/fsw/src/cf_codec.c:881-891 | both offsets |
| PduDecoder.Decoder.DecodeAllTlv | apps/cf/fsw/src/cf_codec.c:1084-1111 | the loop reads TLVs up to the end of the data, at most `limit` and at most 4, or fails as the code does |
| PduDecoder.Decoder.DecodeAllSegments | apps/cf/fsw/src/cf_codec.c:1119-1146 | the loop reads segment requests up to the end of the data, at most `limit` and at most 58 |
| PduDecoder.Decoder.DecodeMetadata | apps/cf/fsw/src/cf_codec.c:899-914 | reads what `ReadMetadata` says from the position on |
| PduDecoder.Decoder.DecodeFileDataHeader | apps/cf/fsw/src/cf_codec.c:922-976 | reads what `ReadFileData` says; the rest of the packet is the data |
| PduDecoder.Decoder.DecodeEof | apps/cf/fsw/src/cf_codec.c:1001-1014 | reads what `ReadEof` says |
| PduDecoder.Decoder.DecodeFin | apps/cf/fsw/src/cf_codec.c:1022-1035 | reads what `ReadFin` says |
| PduDecoder.Decoder.DecodeAck | apps/cf/fsw/src/cf_codec.c:1043-1056 | reads what `ReadAck` says |
| PduDecoder.Decoder.DecodeNak | apps/cf/fsw/src/cf_codec.c:1064-1076 | reads what `ReadNak` says |
| PduRoundTrip.HeaderSurvivesIff | apps/cf/fsw/src/cf_codec.c:371-399 | a header is decoded to itself, consuming exactly its bytes, if and only if every field fits its place, both lengths are 1 to 4 and neither of the two flags the encoder leaves out is set |
| PduRoundTrip.MetadataSurvivesIff | apps/cf/fsw/src/cf_codec.c:573-589 | a metadata PDU is decoded to itself if and only if its fields fit and both names are given |
| PduRoundTrip.EofSurvivesIff | apps/cf/fsw/src/cf_codec.c:634-648 | an EOF is decoded to itself if and only if its fields and TLVs fit |
| PduRoundTrip.FinSurvivesIff | apps/cf/fsw/src/cf_codec.c:656-670 | a FIN is decoded to itself if and only if its fields and TLVs fit |
| PduRoundTrip.AckSurvivesIff | apps/cf/fsw/src/cf_codec.c:678-693 | an ACK is decoded to itself if and only if its fields fit |
| PduRoundTrip.NakSurvivesIff | apps/cf/fsw/src/cf_codec.c:701-713 | a NAK is decoded to itself if and only if its offsets fit 32 bits and there are at most 58 requests |
| PduRoundTrip.FileDataSurvivesIff | apps/cf/fsw/src/cf_codec.c:597-626 | a file data PDU with its data is decoded to itself if and only if its fields fit and no optional field is lost |
| WireFormat.HeaderIsRead | apps/cf/fsw/src/cf_codec.c:766-804 | the header bit by bit: an accepted one has lengths of 1 to 4, and its bytes are version, type, direction, mode, CRC flag (bit 1) and large-file flag (bit 0), the data length, both lengths less one, and the three ids; exactly when reading fails or refuses the lengths |
| WireFormat.HeaderIsWritten | apps/cf/fsw/src/cf_codec.c:371-399 | what the encoder writes for fields that fit is this header, with both flags 0 |
| WireFormat.LvIsRead | apps/cf/fsw/src/cf_codec.c:832-842 | a length and as many bytes |
| WireFormat.TlvIsRead | apps/cf/fsw/src/cf_codec.c:850-873 | type, length and as many bytes; type 6 is an entity id, most significant byte first |
| WireFormat.TlvsAreRead | apps/cf/fsw/src/cf_codec.c:1084-1111 | the TLVs stand one behind the other, up to the end of the data or up to the limit |
| WireFormat.SegmentsAreRead | apps/cf/fsw/src/cf_codec.c:1119-1146 | the requests stand one behind the other, eight bytes each, up to the end of the data or up to the limit; exactly when reading fails |
| WireFormat.MetadataIsRead | apps/cf/fsw/src/cf_codec.c:899-914 | the metadata byte by byte: close request in bit 7, checksum type in bits 0-3, size, both names |
| WireFormat.EofIsRead | apps/cf/fsw/src/cf_codec.c:1001-1014 | the EOF byte by byte: condition code in bits 4-7, checksum, size, at most 4 TLVs |
| WireFormat.FinIsRead | apps/cf/fsw/src/cf_codec.c:1022-1035 | the FIN byte by byte: condition code, delivery code in bit 2, file status in bits 0-1, at most 4 TLVs |
| WireFormat.AckIsRead | apps/cf/fsw/src/cf_codec.c:1043-1056 | the ACK byte by byte, in its four fields |
| WireFormat.NakIsRead | apps/cf/fsw/src/cf_codec.c:1064-1076 | the NAK byte by byte: scope and at most 58 requests; exactly when reading fails |
| WireFormat.FileDataIsRead | apps/cf/fsw/src/cf_codec.c:922-976 | the file data PDU byte by byte: continuation state in bits 6-7 and a count of requests in bits 0-5 if there are any, offset, and the data up to the end |
| WireFormat.DirectivesAreWritten | apps/cf/fsw/src/cf_codec.c:573-713 | the bytes written for each kind of directive are those the reader expects for the same value |
| WireFormat.FileDataIsWritten | apps/cf/fsw/src/cf_codec.c:597-626 | the same for file data |
| WireFormat.NullIsWritten | apps/cf/fsw/src/cf_codec.c:455-515 | what is written for a null pointer: the length 0 alone, and nothing valid for any other length |
| WireFormat.SpareBitsAreZero | apps/cf/fsw/src/cf_codec.c:371-713 | bits that no field uses are written as 0 |
| NakRequests.NakBuffer.GapCompute | apps/cf/fsw/src/cf_cfdp_r.c:453-477 | a gap becomes a request relative to the scope start, in 32-bit arithmetic, as long as there are fewer than 58 |
| NakRequests.BuildNak | apps/cf/fsw/src/cf_cfdp_r.c:500-523 | the number of gaps and the NAK for the chunk list of the receiver |
| NakRequests.RecordRequests | apps/cf/fsw/src/cf_cfdp_s.c:488-520 | the sender records every request except (0, 0), which asks for metadata, reversed ones and ones beyond the file |
| NakRequests.ScopeIsUndone | apps/cf/fsw/src/cf_cfdp_r.c:453-477 | adding the scope start back to a request gives the gap |
| NakRequests.NakIsDelivered | apps/cf/fsw/src/cf_cfdp_r.c:500-523 | the NAK for any chunk list, empty chunks included, and any non-empty file is decoded to itself |
| NakRequests.SenderLearnsMissing | apps/cf/fsw/src/cf_cfdp_r.c:500-523 | a sender with nothing to resend records exactly the first missing runs of the receiver: all of them but for the capacity of the NAK and a last run that a chunk beyond the end of the file has stretched |
| NakRequests.SenderLearnsAll | apps/cf/fsw/src/cf_cfdp_r.c:500-523 | if the list of the receiver has a free slot and no chunk beyond the end, one NAK makes the sender record exactly what is missing |
| NakRequests.StretchedNakIsUseless | apps/cf/fsw/src/cf_cfdp_r.c:500-523 | if only the last run is missing and a chunk beyond the end stretches it, the sender records nothing |
| NakRequests.EmptyPieceSplitsGap | apps/cf/fsw/src/cf_cfdp_r.c:453-477 | a concrete list with an empty chunk: the gap around it is asked for in two touching requests, which the sender joins |
| NakRequests.EmptyFileAsksForMetadata | apps/cf/fsw/src/cf_cfdp_r.c:500-523 | for a file of no bytes the NAK for data is the one that asks for metadata |
| NakRequests.OneRequest | apps/cf/fsw/src/cf_cfdp_s.c:488-520 | which single requests leave a chunk on an empty list, and which chunk; an empty request other than (0, 0) leaves an empty chunk |
| Resending.ResendPiece | apps/cf/fsw/src/cf_cfdp_s.c:249-295 | one round of resending takes the front of the first recorded request: at most the outgoing chunk size and what fits the PDU |
| Resending.Resend | apps/cf/fsw/src/cf_cfdp_s.c:249-295 | whatever the room in each PDU, what has been sent and what is still recorded together are a split of the recorded requests, in order; after as many wakeups with room for a byte as bytes were recorded, all of them have been sent |
| Resending.SplitCovers | apps/cf/fsw/src/cf_cfdp_s.c:137-150 | the pieces of a split are exactly the bytes of the runs |
| Resending.AddAllCovers | apps/cf/fsw/src/cf_chunk.c:236-272 | pieces of which none finds the list full and out of reach are all recorded, and nothing else is |
| Resending.PiecesAreKeptIff | apps/cf/fsw/src/cf_cfdp_r.c:408-445 | of the missing runs, split in any way and received in order, no byte is lost if and only if the list has a free slot, no run starts at 0, or the first piece reaches the first chunk |
| Resending.PiecesCompleteIff | apps/cf/fsw/src/cf_cfdp_r.c:408-445 | receiving the missing runs, split in any way, completes the file if and only if no byte is lost or the chunk given up for the first piece lies beyond the file |
| Resending.MissingRunsComplete | apps/cf/fsw/src/cf_cfdp_r.c:408-445 | runs that arrive in one piece each complete the file, even if the list is full |
| Resending.SmallPieceIsLost | apps/cf/fsw/src/cf_cfdp_r.c:408-445 | a concrete full list and a split of its only missing run after which the first bytes of the file are missing again |
| Resending.RoundCompletes | apps/cf/fsw/src/cf_cfdp_r.c:500-523 | a whole round: from a list with a free slot and no chunk beyond the end, whatever pieces the sender makes of the NAK complete the file |
| Rounds.RoundShrinks | apps/cf/fsw/src/cf_cfdp_r.c:500-523 | a round in which pieces of what was asked for arrive in any order, several times or not at all: as long as the list does not overflow, exactly the bytes that arrive are missing no more, and whatever arrives was missing |
| Rounds.RoomIsLossless | apps/cf/fsw/src/cf_chunk.c:236-272 | a list with as many free slots as pieces that arrive does not overflow, whatever their order |
| Rounds.RoundsNeverGrow | apps/cf/fsw/src/cf_cfdp_r.c:500-523 | over any number of such rounds no byte is missing that was not missing before |
| Rounds.RoundsComplete | apps/cf/fsw/src/cf_cfdp_r.c:500-523 | if something gets through in every round, the file is complete after at most as many rounds as bytes were missing |
| NakPdu.NakHeader | apps/cf/fsw/src/cf_cfdp.c:238-300 | the header of a NAK: direction, lengths and ids as the code chooses them |
| NakPdu.SetPduLength | apps/cf/fsw/src/cf_cfdp.c:216-230 | the data length is the position less the header length, unless the position is not behind it; it is stored in bytes 1 and 2 exactly if the encoder is valid and has a fixed header |
| NakPdu.SendNak | apps/cf/fsw/src/cf_cfdp.c:538-564 | the buffer holds exactly header, directive code and NAK, with the final data length in the header, whenever they fit; bytes beyond the limit are never touched (`NakIsOnTheWire` has the bytes) |
| NakPdu.NakPacketIsRead | apps/cf/fsw/src/cf_cfdp.c:572-624 | header, directive code and NAK are read back from the packet, and nothing is left over |
| NakPdu.ReceiveNak | apps/cf/fsw/src/cf_cfdp.c:814-828 | receiving header and NAK from a decoder, exactly as `ReceivedNakIff` says |
| NakPdu.NakIsReceived | apps/cf/fsw/src/cf_cfdp.c:538-624 | what was sent is received: same header, same NAK, for every NAK that fits |
| NakPdu.NakIsOnTheWire | apps/cf/fsw/src/cf_cfdp.c:538-564 | the bytes of a NAK packet: flags 0x28, the length of what follows, the ids, the directive code 8, scope and requests |
| NakPdu.ReceivedNakIff | apps/cf/fsw/src/cf_cfdp.c:572-624 | exactly which packets are received as a NAK, and as what: an accepted header with neither the large-file flag nor the file-data type, the directive code 8, and a NAK; a packet whose first byte is odd is always refused |
| NakPdu.LengthWraps | apps/cf/fsw/src/cf_cfdp.c:216-230 | what the 16-bit position makes of the length of a PDU beyond 2^16 bytes |
| NakPdu.NakAlwaysFits | apps/cf/fsw/src/cf_cfdp.c:538-564 | the exact length of a NAK packet; it is at most 489 bytes, less than a PDU of 512 may have |
| NakPdu.NakForIsReceived | apps/cf/fsw/src/cf_cfdp.c:538-624 | the packet that asks for the gaps of any chunk list fits a PDU and is received unchanged |
| ReceiverSpec.ConditionCode | apps/cf/fsw/src/cf_utils.c:523-583 | a status becomes the no-error code if and only if it is not an error |
| Receiver.Transaction.constructor | apps/cf/fsw/src/cf_cfdp_r.c:566-612 | a new transaction, with or without metadata, with whatever its recycled history and chunk list hold |
| Receiver.Transaction.SetTxnStatus | apps/cf/fsw/src/cf_cfdp.c:1659-1665 | an error status is never overwritten |
| Receiver.Transaction.SetFinTxnStatus | apps/cf/fsw/src/cf_cfdp_r.c:47-51 | the same, and a FIN is due |
| Receiver.Transaction.R2Reset | apps/cf/fsw/src/cf_cfdp_r.c:70-83 | which transactions are freed at once and which send a FIN first |
| Receiver.Transaction.CountNak | apps/cf/fsw/src/cf_cfdp_r.c:148-168 | a NAK is counted and due, or at the limit the status is set and the count starts again |
| Receiver.Transaction.R2Complete | apps/cf/fsw/src/cf_cfdp_r.c:115-182 | the completeness check: gaps, retry count, limit and FIN, as `CheckComplete` says |
| Receiver.Transaction.ProcessFd | apps/cf/fsw/src/cf_cfdp_r.c:190-242 | file data is written at its offset, with a seek unless the cached position is right; the error status of each failure |
| Receiver.Transaction.SubstateRecvFileData | apps/cf/fsw/src/cf_cfdp_r.c:408-445 | file data: stored and recorded, or the transaction is reset |
| Receiver.Transaction.SubstateRecvEof | apps/cf/fsw/src/cf_cfdp_r.c:322-371 | EOF: only the first counts; size mismatch, error code, completeness |
| Receiver.Transaction.RecvMd | apps/cf/fsw/src/cf_cfdp_r.c:779-873 | metadata in place of the temporary file: size mismatch, rename, completeness |
| Receiver.Transaction.Recv | apps/cf/fsw/src/cf_cfdp_r.c:899-917 | which handler each sub-state has for each PDU, and the restart of the inactivity timer (`ReceiverTable.PduTable` has every field) |
| Receiver.Transaction.DigestChunks | apps/cf/fsw/src/cf_cfdp_r.c:639-690 | the checksum loop with its budget, seeks and failing reads |
| Receiver.Transaction.CalcCrcChunk | apps/cf/fsw/src/cf_cfdp_r.c:620-712 | the checksum over as many wakeups as it takes, and its comparison with the EOF |
| Receiver.Transaction.SubstateSendFin | apps/cf/fsw/src/cf_cfdp_r.c:720-749 | a FIN is sent once the checksum is done or there is an error |
| Receiver.Transaction.SubstateSendNak | apps/cf/fsw/src/cf_cfdp_r.c:485-558 | a NAK for metadata, for gaps, or completion if there is no gap |
| Receiver.Transaction.DoTick | apps/cf/fsw/src/cf_cfdp_r.c:958-1075 | one tick: inactivity, at most one PDU, acknowledgement timer |
| Receiver.Transaction.CancelTransaction | apps/cf/fsw/src/cf_cfdp.c:1734-1743 | cancelling before and after the FIN |
| Receiver.Transaction.Handle | apps/cf/fsw/src/cf_cfdp_dispatch.c:40-90 | the object does on every event what the state machine `Step` does, so what is proved about its runs holds for the code as written |
| ReceiverTable.PduTable | apps/cf/fsw/src/cf_cfdp_r.c:899-917 | field by field, what every event other than a tick leaves in the transaction: file, position, chunk list, what is known of metadata and EOF, status, what is due, retry count, timers and sub-state; nothing is sent |
| ReceiverEvents.WrittenIs | apps/cf/fsw/src/cf_cfdp_r.c:209-228 | a write at an offset: a reader finds the data there, everything else as before, and zeros in a hole |
| ReceiverTable.CheckIs | apps/cf/fsw/src/cf_cfdp_r.c:115-182 | the completeness check: its verdict depends on what is missing, on the EOF, on the retry count and its limit; what each verdict changes |
| ReceiverTable.TickTable | apps/cf/fsw/src/cf_cfdp_r.c:958-1075 | a tick is inactivity timer, one turn to send and acknowledgement timer, in this order; at most one PDU is sent |
| ReceiverTable.TurnRow | apps/cf/fsw/src/cf_cfdp_r.c:987-1017 | what the turn of the acknowledgement or of the NAK sends and changes, with and without a buffer |
| ReceiverTable.FinRow | apps/cf/fsw/src/cf_cfdp_r.c:720-749 | a FIN that needs no checksum any more: its three fields, and that the next sub-state is reached even without a buffer |
| ReceiverTable.ChecksumRow | apps/cf/fsw/src/cf_cfdp_r.c:620-749 | a FIN that needs the checksum first: nothing is sent as long as the budget does not suffice; then the FIN says 0 with a complete, retained file, or 5 |
| ReceiverTable.UnreadableRow | apps/cf/fsw/src/cf_cfdp_r.c:639-690 | a file that cannot be read is an error 6 |
| ReceiverTable.AckTimerRow | apps/cf/fsw/src/cf_cfdp_r.c:1019-1056 | the acknowledgement timer: completeness is checked again, or the FIN is sent again, or the transaction is freed at the limit, with error 17 if it had none |
| ReceiverEvents.AcknowledgementEndsIff | apps/cf/fsw/src/cf_cfdp_r.c:757-763 | the acknowledgement of the FIN frees the transaction if and only if it can be read and the receiver waits for it; otherwise only the inactivity timer changes, and nothing is sent |
| ReceiverEvents.FreedIff | apps/cf/fsw/src/cf_cfdp_r.c:70-83 | exactly which PDUs and requests free the transaction: an acknowledged FIN, a cancel request while that is awaited, an EOF that reports an error, and unstorable data |
| ReceiverEvents.TickFreesIff | apps/cf/fsw/src/cf_cfdp_r.c:1035-1056 | a tick frees it if and only if it waits for the acknowledgement of its FIN, is complete, and the timer runs out for the last time |
| ReceiverEvents.AcknowledgedIsOver | apps/cf/fsw/src/cf_cfdp_r.c:757-763 | over whole runs: if the receiver waits for the acknowledgement of its FIN after any events, the acknowledgement frees it, and nothing that follows makes it send anything more |
| ReceiverTable.EofIsAcknowledgedIff | apps/cf/fsw/src/cf_cfdp_r.c:322-371 | the acknowledgement of an EOF goes out with the next tick with a buffer, before anything else and with its condition code, if and only if the EOF reports no error |
| ReceiverEvents.CodesAre | apps/cf/fsw/src/cf_cfdp_pdu.h:276-289 | the condition codes that FINs carry, in numbers: 0 for success, 4 filestore rejection, 5 checksum, 6 size, 7 NAK limit, 8 inactivity, 15 cancel |
| ReceiverTable.FailureIsReported | apps/cf/fsw/src/cf_cfdp_r.c:47-51 | metadata or EOF of the wrong size, a file that cannot be put in its place, and a cancel request are each reported by the FIN of the next tick, with the codes 6, 4 and 15, if nothing else is to be sent first |
| ReceiverTable.NoFileIsReported | apps/cf/fsw/src/cf_cfdp_r.c:566-612 | a file that cannot be created is reported with the code 4 as incomplete and discarded, unless an error was left over |
| ReceiverTable.WrongChecksumIsReported | apps/cf/fsw/src/cf_cfdp_r.c:693-712 | the wakeup that finishes a checksum other than the one of the EOF sends a FIN with the code 5 |
| ReceiverEvents.GivingUpIsReported | apps/cf/fsw/src/cf_cfdp_r.c:148-168 | a silent receiver that misses something reports 7 if it is freed, and is left with 8 otherwise |
| ReceiverSafety.StepKeeps | apps/cf/fsw/src/cf_cfdp_r.c:958-1075 | every event keeps the invariant, and every FIN it sends is sound |
| ReceiverSafety.SuccessIsSound | apps/cf/fsw/src/cf_cfdp_r.c:720-749 | over every run: a FIN without an error is sent only if metadata and EOF arrived with equal sizes, every byte is covered by pieces received or by what the recycled chunk list held at the start, and exactly that many bytes gave the checksum of the EOF; the FIN then says complete and retained |
| RecycledChunks.SuccessMeansReceived | apps/cf/fsw/src/cf_cfdp_r.c:720-749 | a FIN without an error: every byte that the recycled chunk list did not claim has been received in this transaction, and so every byte if the list was empty |
| RecycledChunks.ClaimedNeedNotArrive | apps/cf/fsw/src/cf_cfdp.c:1589-1651 | the converse, over whole runs, for any recycled list, any file and any byte the list claims but the last of the file: if that byte is never received and all others are, the receiver sends a FIN without an error if and only if the byte is a zero and there is time for the checksum before the ticks or the inactivity timer run out |
| ReceiverIntegrity.ErrorIsSticky | apps/cf/fsw/src/cf_cfdp.c:1659-1665 | once a transaction has an error status, no sequence of events changes it |
| ReceiverIntegrity.UnstorableDataEnds | apps/cf/fsw/src/cf_cfdp_r.c:408-445 | file data that cannot be stored frees the transaction at once, with an error and without a FIN |
| ReceiverIntegrity.StaysIntactIff | apps/cf/fsw/src/cf_cfdp_r.c:190-242 | after one more event the bytes that went into the checksum are still in the file if and only if the event is not file data that differs from them |
| ReceiverIntegrity.FileIsSound | apps/cf/fsw/src/cf_cfdp_r.c:620-749 | over every run without such data, a FIN without an error means that the file has the size of the metadata and the checksum of the EOF |
| ReceiverIntegrity.LateDataGoesUnnoticed | apps/cf/fsw/src/cf_cfdp_r.c:408-445 | a concrete run in which data arrives after the checksum, is written over the file, and the next FIN still reports success |
| ReceiverRetries.WaitingIsFreedIff | apps/cf/fsw/src/cf_cfdp_r.c:1019-1056 | without any PDU a receiver that waits for the acknowledgement of its FIN is freed if and only if it is complete, and then exactly at the tick at which the retries are used up |
| ReceiverRetries.MissingIsGivenUp | apps/cf/fsw/src/cf_cfdp_r.c:148-163 | without any PDU a receiver that misses something keeps asking, and reaches the NAK limit at exactly one tick, given by the limit, the count and the timer |
| ReceiverRetries.MissingIsReportedAndFreed | apps/cf/fsw/src/cf_cfdp_r.c:958-1075 | from there to the end: with buffers to send in and an inactivity timer that lasts until the NAK deadline, it reports the NAK limit in a FIN and is freed within the two deadlines and three ticks |
| ReceiverRetries.ImpatientIsStuck | apps/cf/fsw/src/cf_cfdp_r.c:970-985 | if the inactivity timer does not last until the NAK deadline, the receiver is in an error state from the tick at which it runs out, and no number of ticks frees it |
| ReceiverRetries.MissingIsFreedIff | apps/cf/fsw/src/cf_cfdp_r.c:958-1075 | bounded retries, exactly: given ticks enough and buffers, a receiver that misses something is freed if and only if its inactivity timer lasts until the NAK deadline; then it has reported the NAK limit, otherwise it is left with inactivity |
| ReceiverRetries.SeenIff | apps/cf/fsw/src/cf_cfdp_r.c:500-507 | the NAK step sees whatever is missing, except with room for one chunk only, once the metadata and the beginning of the file are there |
| ReceiverRetries.NakOverlooksGapIff | apps/cf/fsw/src/cf_cfdp_r.c:500-507 | the NAK step and the completeness check disagree about gaps if and only if there is room for one chunk only and the beginning of the file is there |
| ReceiverRetries.InactiveIsStuck | apps/cf/fsw/src/cf_cfdp_r.c:970-985 | a receiver whose inactivity timer runs out on an incomplete file with nothing else to send sends at most one FIN, exactly the one that reports inactivity if there is a buffer, and is never freed without a further PDU |
| ReceiverRetries.DataRestartsCount | apps/cf/fsw/src/cf_cfdp_r.c:408-445 | stored file data sets the retry count to zero |
| ReceiverRetries.DataRestartsDeadline | apps/cf/fsw/src/cf_cfdp_r.c:408-445 | stored data starts all timers again: if something is still missing and nothing more comes, the receiver is freed if and only if the configured inactivity time is at least the NAK deadline counted from the beginning |
| ReceiverRetries.MetadataRestartsCount | apps/cf/fsw/src/cf_cfdp_r.c:779-873 | accepted metadata sets it to zero, and then the first NAK for data counts as one, unless there is no gap, an error, or a limit that is reached at once |
| ReceiverProgress.LoopProgress | apps/cf/fsw/src/cf_cfdp_r.c:640-687 | a wakeup whose reads succeed digests exactly its budget, rounded up to whole reads of 1024 bytes, or what is left of the file |
| ReceiverProgress.WholeIsReportedIff | apps/cf/fsw/src/cf_cfdp_r.c:491-535 | for any number of ticks and any timers: a receiver that has everything and hears nothing more, with buffers and reads, sends a FIN without an error if and only if the FIN is due already or completeness has not been noted and the acknowledgement timer will note it before the NAK step does; the budget for the checksum is not 0 if anything is left to digest; and both the ticks and the inactivity timer last until the tick `FinAt`, which counts the turns or the timer before the FIN and one wakeup per budget of bytes left |
| ReceiverProgress.OthersNeverReport | apps/cf/fsw/src/cf_cfdp_r.c:491-535 | in any other state ticks alone never make it send a FIN without an error, however many there are |
| ReceiverProgress.SilenceEndsInError | apps/cf/fsw/src/cf_cfdp_r.c:970-985 | once the timer runs out, a receiver that has noted completeness in silence reports inactivity |
| ReceiverProgress.SilentRunEndsInError | apps/cf/fsw/src/cf_cfdp_r.c:491-535 | a concrete run: all data arrives after the EOF and before the first NAK; whatever ticks follow, no FIN without an error is sent, and within three ticks one that reports inactivity for the complete file |
| CrcArc.ArcIsFeedAll | tools/tblCRCTool/cfe_ts_crc.c:22-27 | the bit-by-bit definition (polynomial 0x8005, reflected) and the register kept reflected compute the same |
| CrcArc.TableIsClock8 | tools/tblCRCTool/cfe_ts_crc.c:70-90 | each of the 256 entries is its index clocked eight times |
| CrcArc.TableStep | tools/tblCRCTool/cfe_ts_crc.c:95-99 | one round of the table loop is feeding the eight bits of one byte |
| CrcArc.ArcConcat | tools/tblCRCTool/cfe_ts_crc.c:92-101 | data may be processed in pieces |
| CrcArc.FeedAllLinear | tools/tblCRCTool/cfe_ts_crc.c:63-102 | the register depends linearly on the bits |
| CrcArc.BurstDetected | tools/tblCRCTool/cfe_ts_crc.c:63-102 | two different inputs that differ only within 16 consecutive bits, at whatever position and for whatever previous value, have different CRCs |
| CrcArc.OddErrorDetected | tools/tblCRCTool/cfe_ts_crc.c:63-102 | so have inputs of equal length that differ in an odd number of bits |
| CrcTool.CalculateCRC | tools/tblCRCTool/cfe_ts_crc.c:63-102 | the table loop returns the CRC-16/ARC of the data in its low 16 bits and copies of bit 15 above |
| CrcTool.Low16OfSignExtend | tools/tblCRCTool/cfe_ts_crc.c:92-101 | the truncation at the start of a call undoes the sign extension at the end of the last one |
| CrcTool.RunTool | tools/tblCRCTool/cfe_ts_crc.c:126-158 | for every way in which `read` can split the payload: size and CRC are those of all bytes behind the 116-byte header; nothing is printed if and only if a read fails |
| CrcTool.CheckValue | tools/tblCRCTool/cfe_ts_crc.c:63-102 | the check value of CRC-16/ARC: the CRC of the text 123456789 is 0xBB3D |
| ElfLayout.SwapUInt16 | tools/elf2cfetbl/elf2cfetbl.c:2196-2202 | exactly the two bytes are exchanged |
| ElfLayout.SwapUInt32 | tools/elf2cfetbl/elf2cfetbl.c:2208-2217 | exactly the four bytes are reversed |
| ElfLayout.SwapUInt64 | tools/elf2cfetbl/elf2cfetbl.c:2219-2239 | exactly the eight bytes are reversed |
| ElfLayout.SwapFields | tools/elf2cfetbl/elf2cfetbl.c:2100-2190 | every field of a structure is reversed once and every byte outside the fields is as before |
| ElfLayout.Load | tools/elf2cfetbl/elf2cfetbl.c:1624-1640 | after reading and swapping, the host sees in every field the value that the file has there, for each host and file byte order |
| ElfLayout.HeaderLayout | tools/elf2cfetbl/ELF_Structures.h:43-86 | the fields of the file header, in both classes, lie apart and inside the structure |
| ElfLayout.SectionLayout | tools/elf2cfetbl/ELF_Structures.h:340-375 | the same for section headers |
| ElfLayout.SymbolLayout | tools/elf2cfetbl/ELF_Structures.h:421-448 | the same for symbols, whose fields stand in different orders in the two classes |
| ElfTool.GetStringFromMap | tools/elf2cfetbl/elf2cfetbl.c:2245-2268 | whether the key is listed before the sentinel |
| ElfTool.Elf2CfeTbl.GetElfHeader | tools/elf2cfetbl/elf2cfetbl.c:1489-1690 | the header, or the error of the first check that fails, in the order of the code |
| ElfTool.Elf2CfeTbl.GetSectionHeader | tools/elf2cfetbl/elf2cfetbl.c:1696-1889 | one section header, its name, and what it contributes to the string and symbol tables |
| ElfTool.Elf2CfeTbl.GetAllSectionHeaders | tools/elf2cfetbl/elf2cfetbl.c:662-667 | the section loop is the scan `ScanSections` |
| ElfTool.Elf2CfeTbl.GetSymbol | tools/elf2cfetbl/elf2cfetbl.c:1895-1980 | one symbol and its name, and whether it is the definition |
| ElfTool.Elf2CfeTbl.GetAllSymbols | tools/elf2cfetbl/elf2cfetbl.c:679-684 | the symbol loop is the scan `ScanSymbols` |
| ElfTool.Elf2CfeTbl.GetTblDefInfo | tools/elf2cfetbl/elf2cfetbl.c:2274-2340 | the definition, with its names terminated and its size in host order, or an error |
| ElfTool.Elf2CfeTbl.LocateAndReadUserObject | tools/elf2cfetbl/elf2cfetbl.c:2346-2502 | the search loop and the size rules find what `Locate` says |
| ElfTool.Elf2CfeTbl.OutputDataToTargetFile | tools/elf2cfetbl/elf2cfetbl.c:2508-2645 | both headers, most significant byte first on either host, then the data byte by byte (`TableContract.OutputLayout` has the bytes) |
| ElfTool.Elf2CfeTbl.Run | tools/elf2cfetbl/elf2cfetbl.c:622-711 | whatever the byte order of the host, the program writes what `Translate` says, which does not mention the host, or fails with the same error |
| ElfTheory.StringTableFound | tools/elf2cfetbl/elf2cfetbl.c:1799-1813 | the section loop ends with the last named SHT_STRTAB section called `.strtab`, otherwise with the first other than e_shstrndx, otherwise with none |
| ElfTheory.SymbolTableFound | tools/elf2cfetbl/elf2cfetbl.c:1778-1797 | the section loop ends with the last named symbol table and the number of its entries less one |
| ElfTheory.SectionScanResult | tools/elf2cfetbl/elf2cfetbl.c:662-667 | both at once for a completed loop over a file, with every section read and named in turn |
| ElfTheory.SymbolsStayInside | tools/elf2cfetbl/elf2cfetbl.c:1895-1932 | with entries at least as long as a symbol, every read skips the null symbol and stays inside the table |
| ElfTheory.SymbolsInsideIff | tools/elf2cfetbl/elf2cfetbl.c:1895-1932 | exactly when all reads stay inside the table, for any entry size |
| ElfTheory.ShortEntriesReadBeyond | tools/elf2cfetbl/elf2cfetbl.c:1895-1932 | a table with 8-byte entries that is read beyond its end |
| ElfTheory.SymbolScanResult | tools/elf2cfetbl/elf2cfetbl.c:1958-1963 | a completed symbol loop has read and named every symbol and remembers the greatest index whose name is `CFE_TBL_FileDef`, or that after any one character |
| ElfTheory.ObjectNamesAre | tools/elf2cfetbl/elf2cfetbl.c:2365-2398 | the names that match are the name of the object and that name with any one character more |
| ElfTheory.FoundIff | tools/elf2cfetbl/elf2cfetbl.c:2359-2420 | the search ends at an index if and only if that name matches and no earlier one does |
| ElfTheory.SizeEmitted | tools/elf2cfetbl/elf2cfetbl.c:2422-2479 | inside `.bss` the size of the symbol is emitted; outside, the size in the definition if the symbol has none, otherwise the smaller of the two |
| ElfMeaning.TranslationIsFaithful | tools/elf2cfetbl/elf2cfetbl.c:622-711 | meaning is preserved: a file that holds an object with a table, in either class and byte order and with its parts wherever they lie, becomes the headers of that table, most significant byte first, and exactly its bytes |
| ElfMeaning.ClassAndByteOrderDoNotMatter | tools/elf2cfetbl/elf2cfetbl.c:642-706 | files of different class, byte order and layout that define the same table give the same output |
| ElfSample.CompiledTableIsTranslated | tools/elf2cfetbl/elf2cfetbl.c:622-711 | a concrete writer of objects shows that every table with names that fit can be held in all four formats, and translating what it writes gives the table file |
| ElfFormat.HeaderIsAccepted | tools/elf2cfetbl/elf2cfetbl.c:1489-1690 | which files have a header that is accepted, byte by byte (chapter 4 of the System V gABI): magic number, class 1 or 2, byte order 1 or 2, version 1, a type of at most 4 and a listed machine; and what is read from it at which offset |
| ElfFormat.ListedIs | tools/elf2cfetbl/elf2cfetbl.c:2245-2268 | a list of machines ends at the first text that starts with an asterisk |
| ElfFormat.HeaderErrorIsTrue | tools/elf2cfetbl/elf2cfetbl.c:1489-1690 | what each complaint about the header says holds of the bytes of the file |
| ElfFormat.SectionIsRead | tools/elf2cfetbl/elf2cfetbl.c:1696-1745 | section i is read from the bytes i entries behind the start of the table, 40 or 64 of them, exactly if they lie in the file |
| ElfFormat.TablesAreNoted | tools/elf2cfetbl/elf2cfetbl.c:1778-1813 | sections of type 2 and 3 are the symbol and string tables; one called `.strtab` counts, or the first other one |
| ElfFormat.SymbolIsRead | tools/elf2cfetbl/elf2cfetbl.c:1895-1932 | symbol i is read from 16 or 24 bytes of the table, whose fields stand in different orders |
| ElfFormat.NamesAreRead | tools/elf2cfetbl/elf2cfetbl.c:1735-1776 | names are found in the string tables, up to 59 bytes long, with their terminator |
| ElfFormat.DefinitionNames | tools/elf2cfetbl/elf2cfetbl.c:1958-1963 | the definition is the symbol `CFE_TBL_FileDef`, or that after any one character |
| ElfFormat.DefinitionIsRead | tools/elf2cfetbl/elf2cfetbl.c:2274-2340 | the 160 bytes of the definition: names in 64, 40 and 32 bytes and the size at 156; exactly when it is accepted |
| ElfFormat.DataIsRead | tools/elf2cfetbl/elf2cfetbl.c:2626-2642 | the data emitted are zeros, or the bytes of the file; past its end they are 0xFF |
| ElfFormat.OffsetComplaint | tools/elf2cfetbl/elf2cfetbl.c:2443-2458 | an object beyond 2^32 is refused, any other outside `.bss` is found at the offset of its section plus its value |
| ElfFormat.DefinitionComplaints | tools/elf2cfetbl/elf2cfetbl.c:686-711 | there is no definition, or no object, exactly if no symbol has such a name |
| ElfFormat.SymbolComplaints | tools/elf2cfetbl/elf2cfetbl.c:669-677 | there is no string table, or there are no symbols, exactly when this is said |
| ElfFormat.NoSectionsIff | tools/elf2cfetbl/elf2cfetbl.c:717-726 | the same for a file without sections |
| TableContract.TableFileParts | tools/elf2cfetbl/elf2cfetbl.c:2583-2642 | a table file is 116 bytes of headers and the data, and its size field is the length of the data |
| TableContract.TableFileLayout | tools/elf2cfetbl/elf2cfetbl.c:2560-2642 | the bytes of a table file: 63 46 45 31, 8, 64, the spacecraft, processor and application id, the time, 0, the description in 32 bytes; then 0, 0, the size, the name of the table in 40 bytes, and the data; all numbers most significant byte first |
| TableContract.OutputLayout | tools/elf2cfetbl/elf2cfetbl.c:2508-2645 | every output for settings that fit has this layout, for a description and a table name that the settings or the definition give |
| TableContract.CrcToolSeesTheObject | tools/tblCRCTool/cfe_ts_crc.c:126-158 | on every file the table writer produces, the payload of the CRC tool is the bytes behind the headers, as many as the table header says |
| TableContract.CrcOfTableFile | tools/tblCRCTool/cfe_ts_crc.c:126-158 | the CRC of a table file is the CRC-16/ARC of the bytes of the object |
| TableContract.TranslateAndCheck | tools/tblCRCTool/cfe_ts_crc.c:126-158 | both tools in a row, for every host and every split of the reads: the printed size is the one in the table header, the printed CRC that of the data |
| CommandPacket.MiniCmdUtil.constructor | tools/cfdp_ground/cfdp_attach_cmd_header.py:15-25 | an empty packet and a checksum of 0xFF |
| CommandPacket.MiniCmdUtil.AssemblePriHeader | tools/cfdp_ground/cfdp_attach_cmd_header.py:27-35 | the primary header, or the error if the identifier or the length do not fit 16 bits |
| CommandPacket.MiniCmdUtil.AssemblePacket | tools/cfdp_ground/cfdp_attach_cmd_header.py:37-51 | the packet is appended to what was there; what is left behind if a number does not fit |
| CommandPacket.PacketChecksIff | tools/cfdp_ground/cfdp_attach_cmd_header.py:37-51 | all bytes of a packet together give 0xFF if and only if the place of the checksum held 0 when the checksum was taken, as it does for a fresh object |
| CommandPacket.SecondPacketHasNoChecksum | tools/cfdp_ground/cfdp_attach_cmd_header.py:37-51 | the second packet of the same object always carries the checksum 0 |
| CommandPacket.PacketLayout | tools/cfdp_ground/cfdp_attach_cmd_header.py:27-51 | the bytes of every packet, numbers most significant byte first: identifier, C0 00, the length of the whole packet less 7 (section 4.1.3 of CCSDS 133.0-B), four zeros, command code, checksum, payload |

## Left out

- The class-1 receiver and the sender, except the recording of NAK requests: mostly file reading and one-branch steps.
- Command dispatch, table loading, playback and polling directories, the software bus interface, the end-of-transaction packet, events and counters.
- File, bus and operating-system calls: their outcomes are fields of the receiver's events; where a failed seek or read leaves the file position is not modelled, because an error ends all use of the file.
- Time: the timers count ticks, as the code does; how long a tick is does not matter.
- Pointers into PDU buffers: the logical values hold copies of the bytes. The C types are taken for granted: lengths below 256, 32-bit offsets and entity ids, at most 4 TLVs and 58 segments.
- The 8-bit width of the retry counter: it stays below the configured limits, which have 8 bits as well.
- The assertions of the application (`CF_Assert`) that a build may leave out: file data that would end at or beyond 2^32 is excluded from the events, an empty gap is not.
- `CF_CFDP_EncodeCrc` and `CF_CFDP_DecodeCrc`: the same integer steps as in other PDUs.
- The choice of transaction and chunk list for a new PDU, and the channel's lists of transactions.
- The command line of `elf2cfetbl`, its printed output, memory allocation and the opening of files: settings, the source file and the output are values. That an empty output file may be left behind after an error is not modelled.
- The names of machine types in `elf2cfetbl`: a parameter, of which only the end marker is assumed.
- Inputs on which `elf2cfetbl` has no defined behaviour in C (names that do not end within 60 bytes of the file, section indexes out of range, offsets and sizes beyond the width of its counters): one error, `Undefined`. Sizes set by `set_st_size` are a local value.
- `SwapElfHeader`, `SwapSectionHeader`, `SwapSymbol`: one loop over the list of fields instead of a call for each field.
- The network part of `cfdp_attach_cmd_header.py`, and everything else of the ground system.
- ElfMeaning.TranslationIsFaithful: asks for names, sizes and offsets within the limits of the tool's buffers and counters, because beyond them the C program has no defined behaviour.
- ReceiverRetries.MissingIsReportedAndFreed: asks for an inactivity timer that lasts until the NAK deadline, because otherwise it is false; see MissingIsFreedIff.
- ReceiverRetries.MissingIsFreedIff: is about what the NAK step sees to be missing; SeenIff says exactly what it overlooks.
- ReceiverProgress.WholeIsReportedIff: asks for a buffer and successful reads on every tick, because without them the tick of the FIN moves or the transaction fails; OthersNeverReport asks for the buffers only.
- RecycledChunks.ClaimedNeedNotArrive: leaves out the last byte of the file, because the file on the disk would be too short for the checksum.
- GapTheory.ReportedIsMissingIff: the list holds no empty chunk (`AllPositive`), and the lemmas of `NakRequests`, `Resending` and `Rounds` that build on it ask the same. Adding non-empty pieces keeps it so (`ChunkTheory.RunIsSound`); a file data PDU without data adds an empty chunk, and then the requests are no longer maximal runs (`NakRequests.EmptyPieceSplitsGap`).
- Resending.ResendPiece: the outcome of the file read and of the send is left out; an error ends the transaction of the sender.
- ReceiverIntegrity.FileIsSound: asks that no data alters digested bytes, because otherwise it is false; see LateDataGoesUnnoticed.
- NakRequests.SenderLearnsMissing: the receiver's list holds no empty chunk, and the sender's list is empty when the NAK arrives; one that still holds requests keeps them as `AddedCovers` says.
