# pgColumnar in Dafny

pgColumnar is a PostgreSQL column store. This project models the parts of it whose correctness
rests on an argument rather than on a line of code, and proves the argument: an MVCC protocol that
keeps a bound on every column, delete marks under nested subtransactions, the value encodings and
the whole-chunk round trip, the Hilbert clustering key, the FlatBuffers builder against its reader,
nested Arrow export and import, pinned object-store reads and multipart uploads, schema-driven Avro
decoding, and the pruning rules that decide which files and row groups are never read.

Check it with `dafny verify dfyconfig.toml`.

## How it is organised

| files | component | form |
|---|---|---|
| `Extent.dfy`, `ExtentProtocol.dfy`, `ExtentTight.dfy` | column extents: fold loops, the commit protocol as a state machine over a commit history, and how tight its bounds are | methods, class, state machine |
| `DeleteMask.dfy`, `DeleteVector.dfy`, `DeleteFlush.dfy` | delete bitmaps, the buffers under nested subtransactions, and the bitmaps as an implementation of them | methods, classes, state machine |
| `BitPack.dfy`, `BitStream.dfy` | bit packing word at a time and bit by bit; the streaming writer and reader | methods on arrays, classes |
| `Words.dfy`, `Rle.dfy`, `Frames.dfy`, `FrameOfReference.dfy`, `Delta.dfy`, `DeltaOfDelta.dfy`, `Gorilla.dfy`, `Alp.dfy`, `OpenHash.dfy`, `Dict.dfy`, `Fsst.dfy` | RLE, FOR, DELTA, DOD, GORILLA, ALP, DICT, FSST, and the open-addressing table the last two probe | functions, methods that refine them, class |
| `Chunk.dfy` | choosing and reversing an encoding for a chunk | functions, methods that refine them |
| `Hilbert.dfy`, `Curve.dfy` | the Hilbert curve as a recursive bijection; the in-place transpose and the packer | functions; methods on arrays |
| `FlatReader.dfy`, `FlatModel.dfy`, `FlatBuild.dfy`, `FlatTree.dfy`, `FlatBuilder.dfy` | the FlatBuffers reader, and the back-to-front builder | functions; class |
| `ArrowTypes.dfy`, `ArrowBatch.dfy`, `ArrowLoops.dfy`, `ArrowImport.dfy` | shredding, pre-order emission, bounds check and reassembly of nested columns; import of any writer's batches | functions, class, methods |
| `ReadPins.dfy`, `MultipartSink.dfy` | object-store read pins as a state machine; the multipart sink | state machine, classes |
| `AvroSpec.dfy`, `AvroReader.dfy`, `AvroWrite.dfy`, `AvroEntry.dfy`, `AvroDecimal.dfy` | skipping and projected decoding; the Avro encoding and what entries decode to; printing a decimal | functions; class; methods on arrays |
| `Comparison.dfy`, `IcebergPrune.dfy`, `TruncKeys.dfy`, `LikeKeys.dfy`, `InListKeys.dfy`, `ScanKeys.dfy` | file pruning and scan keys | functions, methods |
| `Prelude.dfy`, `Bits.dfy` | options and raised errors; words and bytes as numbers with their bits | shared |

A C function that raises an error returns `Err` (or sets the reader's error flag, or returns
`false`); a C function that gives up returns `None`. Unsigned arithmetic is modulo 2^64 where the
source relies on it. Loops and in-place updates of the source are methods with loops; each is proved
equal to a function of its input, and the properties are proved of that function.

## Where the code does not do what it promises

* **An RLE chunk of an odd width cannot be read back.** The encoder tries RLE for every fixed width
  (`src/columnar_encoding.c:2453-2460`), the decoder accepts it for widths 1, 2, 4 and 8 only
  (`:2590-2599`). `Chunk.ReadableWidths`: every chunk of a column can be read back exactly when its
  width is 1, 2, 4 or 8 or variable. `Chunk.UnreadableWhen`: of the other widths, sampled or not,
  exactly the chunks for which RLE wins by length cannot. `Chunk.EqualValuesUnreadable`: a chunk of n
  equal values of such a width w cannot exactly when 4 + w < n * w; `Chunk.UuidPairUnreadable` is a
  two-row example.
* **`date_trunc(...) <= 'infinity'` cuts off the infinite row.** At an infinity the step saturates,
  so the key `k < hi` has `hi == c` (`src/columnar_customscan.c:589-592`). The comment at `:596-608`
  says the ordered operators are unaffected; `TruncKeys.KeysSoundIff` proves the keys sound exactly
  for finite constants and for every operator but `<=`.
* **Day and hour pruning loses files for constants near the end of the timestamp range.** The shift to
  the 1970 epoch overflows int64 (`src/columnar_iceberg_fdw.c:967`), the bucket turns negative, and
  `=`, `<` and `<=` then skip files that match. `IcebergPrune.TemporalSoundIff` gives the exact
  condition, `IcebergPrune.LateConstantLosesRows` an example.
* **A column whose type has no ordering can get a complete extent row that later writes contradict.**
  A recompute over groups without values writes a complete row with no values; a later flush of such
  a type notes nothing. `ExtentProtocol.SoundIffOrdered`: no reader is ever misled exactly when the
  column's type has an ordering; `ExtentProtocol.UnorderedTypeMisleads` is a reachable state.
* **A version id alone does not pin a statement's reads.** After a 403 the read goes on without the
  version (`objstore/columnar_objstore_module.c:2229-2240`). `ReadPins.GuaranteedIff`: a statement is
  sure to read one content of an object exactly when its first open saw a strong ETag.
  `ReadPins.VersionAloneMixes`: without one, for every object, with a version id or not, and every
  other content of its length, there is a run that reads both.

## Model

| member | source | states |
|---|---|---|
| `ExtentProtocol.ReaderBoundIsSound` | src/columnar_extent.c:451-504 | In every run of concurrent flushes, rollbacks, retires, merges and recomputes of an ordered column, for every snapshot that sees a complete row, the fold of the visible rows and the reader's own pending fold covers every value of every group the reader sees, its own uncommitted groups included. |
| `ExtentProtocol.SoundIffOrdered` | src/columnar_extent.c:451-504 | In no reachable state is a running reader of any snapshot misled by a bound it trusts, exactly when the column's type has an ordering. |
| `ExtentTight.ReaderBoundIsTight` | src/columnar_extent.c:205-269 | In every run, for every snapshot and running transaction of an ordered column, the bound a reader folds is the least bound of the zone ranges of the groups the last recompute saw, of everything noted by the commits its snapshot did not see, and of what the reader flushed itself. |
| `ExtentTight.RetireShrinks` | src/columnar_extent.c:232-269 | A transaction that retired groups and commits with nothing committed since its snapshot leaves one row, and its bound is the least bound of the zone ranges of the groups then visible. |
| `ExtentTight.LaterBound` | src/columnar_extent.c:370-397 | While only plain writers commit, the bound of a later snapshot is the join of an earlier one and the zone ranges they noted. |
| `ExtentTight.KeepsRowsFew` | src/columnar_extent.c:406-429 | A writer commits without replacing rows only if at most eight are visible and one is complete, or it wrote none, or the lock was not free. |
| `ExtentTight.ReplaceColumn` | src/columnar_extent.c:232-303 | The merge and recompute loops over the rows and groups of the locked snapshot compute the one bound the protocol allows to replace the rows, or give up exactly when it allows none. |
| `ExtentTight.StepTight` | src/columnar_extent.c:349-437 | Every action keeps the visible rows, the own rows and the replacing rows spanning exactly the zone ranges the actions so far call for. |
| `ExtentProtocol.StepKeepsInv` | src/columnar_extent.c:349-437 | Every action of every transaction keeps the protocol invariant. |
| `ExtentProtocol.UnorderedTypeMisleads` | src/columnar_extent.c:242-254 | For a type without an ordering a state is reachable in which a transaction that has just begun trusts a bound that misses a value it can see. |
| `ExtentProtocol.GiveUpSeesNoComplete` | src/columnar_extent.c:242-254 | A recompute that gives up has no complete row in its snapshot, so giving up never leaves a stale complete row behind. |
| `ExtentProtocol.ReplaceCovers` | src/columnar_extent.c:205-303 | The complete row a recompute or a merge writes covers every group its snapshot sees. |
| `ExtentProtocol.PlainSpan` | src/columnar_extent.c:370-397 | While only plain writers commit after a locked snapshot, no row disappears, no complete row appears, and every group they add is covered by a row. |
| `Extent.FoldIsLeast` | src/columnar_extent.c:256-268 | The fold of bounds in list order is the least bound of their set, whatever the order. |
| `Extent.OrderIrrelevant` | src/columnar_extent.c:272-303 | Lists of the same bounds, in any order and with repetitions, fold to the same bound. |
| `Extent.RecomputeColumn` | src/columnar_extent.c:232-269 | Gives a bound exactly when every group has a zone map with a minimum and maximum or no values; then it is the fold of the zone maps. |
| `Extent.FoldRows` | src/columnar_extent.c:272-303 | Reports a complete row exactly when one is visible, and folds the visible rows. |
| `Extent.PendingExtent.Note` | src/columnar_extent.c:123-162 | A flushed zone map widens the pending bound to the join; one without a minimum and maximum changes nothing. |
| `Extent.PendingExtent.ExtentBound` | src/columnar_extent.c:451-504 | Trusted exactly when a complete row is visible; then the bound is the fold of the visible rows and the pending bound. |
| `DeleteVector.ReadSeesExactlyLiveMarks` | src/columnar_delete_vector.c:445-471 | After any sequence of marks, reads, statement ends and nested subtransaction commits and aborts, a read's flush leaves in the catalog exactly the baseline plus the marks of levels that have not aborted. |
| `DeleteVector.PreCommitIsExact` | src/columnar_delete_vector.c:477-490 | At pre-commit no buffer is kept, and flushing the rest gives exactly the baseline plus the marks of non-aborted levels. |
| `DeleteVector.StepKeepsInv` | src/columnar_delete_vector.c:528-585 | Every event keeps the balance of catalog, saved catalogs and buffers at every open level. |
| `DeleteVector.Buffers.MarkRowDeleted` | src/columnar_delete_vector.c:109-142 | A mark goes to the buffer of the current subtransaction, found or created, and moves the state as the mark event does. |
| `DeleteVector.Buffers.FlushForRelation` | src/columnar_delete_vector.c:445-471 | A read writes every buffer not already written and keeps those of enclosing subtransactions, as the read event does. |
| `DeleteVector.Buffers.FlushOfCurrent` | src/columnar_delete_vector.c:492-509 | The end of a statement writes and empties the buffers its subtransaction owns and no other, as the statement-end event does. |
| `DeleteVector.Buffers.PromoteSubXact` | src/columnar_delete_vector.c:561-585 | A committing subtransaction hands its buffers and its flush marks to its parent, as the commit event does. |
| `DeleteVector.Buffers.DiscardSubXact` | src/columnar_delete_vector.c:528-558 | An aborting subtransaction loses its buffers, and buffers written under it become unwritten again, as the abort event does. |
| `DeleteVector.Buffers.FlushAll` | src/columnar_delete_vector.c:477-490 | The pre-commit flush ends with the catalog at the baseline plus every mark that counts, and no buffer. |
| `DeleteMask.MarkBit` | src/columnar_delete_vector.c:242-281 | Setting the bit of a row adds exactly that row to the marked rows. |
| `DeleteMask.Upsert` | src/columnar_delete_vector.c:412-426 | Or-ing the stored bits into the passed bitmap in place stores the union of both row sets. |
| `DeleteMask.FlushChunk` | src/columnar_delete_vector.c:395-432 | The stored bitmap has the mask's length and is the union of both row sets; a kept mask is left holding its own marks only. |
| `DeleteMask.RowDeleted` | src/columnar_delete_vector.c:288-316 | Answers exactly whether the row is marked. |
| `DeleteFlush.FlushForRelation` | src/columnar_delete_vector.c:445-471 | Where the chunk bitmaps of all buffers and the stored bitmaps represent a state of the machine, a read's flush over them, with copies for kept masks and in-place upserts for the others, leaves them representing the state after its read event. |
| `DeleteFlush.MaskBuffer.Flush` | src/columnar_delete_vector.c:340-438 | Writes the union of a buffer's chunk bitmaps into the stored bitmaps; the buffer keeps exactly its marks or is emptied. |
| `DeleteFlush.FlushChunks` | src/columnar_delete_vector.c:399-432 | The chunk loop adds exactly the marked rows of all chunks to the rows the catalog marks, and changes no kept mask. |
| `DeleteFlush.MaskBuffer.MarkRow` | src/columnar_delete_vector.c:196-281 | Finding or creating the chunk of the row's group and setting its bit adds exactly that row to the buffer's marks. |
| `BitPack.UnpackPack` | src/columnar_encoding.c:108-273 | Unpacking inverts packing on masked values for every width and count, whatever bytes follow the body. |
| `BitPack.BitPackWords` | src/columnar_encoding.c:108-149 | The word-at-a-time packer writes exactly the bit list of the fields, least significant bit first, padded with clear bits. |
| `BitPack.RefBitPack` | src/columnar_encoding.c:2707-2737 | The per-bit reference packer writes the same bytes. |
| `BitPack.BitUnpackWords` | src/columnar_encoding.c:167-273 | The wide-load reader raises exactly for a width above 64 or a short body, otherwise reads every field; it looks at no byte past the packed body. |
| `BitPack.RefBitUnpack` | src/columnar_encoding.c:2678-2704 | The per-bit reference reader reads the same fields. |
| `BitPack.WideLoadIsField` | src/columnar_encoding.c:236-243 | An 8-byte load, a shift and at most one more byte give the field the per-bit loop gives. |
| `BitPack.FastInBody` | src/columnar_encoding.c:219-227 | Every value the wide load serves has nine bytes of the body in front of it. |
| `BitStream.BitWriter.Put` | src/columnar_encoding.c:585-612 | The batched put appends exactly the low bits of the value to the written bit list and keeps the carry valid. |
| `BitStream.BitWriter.RefPut` | src/columnar_encoding.c:2740-2757 | The per-bit put appends the same bits. |
| `BitStream.WriterStateUnique` | src/columnar_encoding.c:562-612 | Buffer, carry byte and carry count are determined by the bits written, so both writers agree in the carry state. |
| `BitStream.BitWriter.Flush` | src/columnar_encoding.c:614-623 | The flushed buffer is the written bits padded with clear bits to a byte. |
| `BitStream.BitReader.Read` | src/columnar_encoding.c:640-660 | Refuses a field wider than 64 bits or past the data, otherwise reads it and moves past it. |
| `BitStream.FieldsReadBack` | src/columnar_encoding.c:562-660 | For every sequence of variable-width fields, reading the flushed stream with the same widths gives back every masked field. |
| `Words.ZigZagBack` | src/columnar_encoding.c:276-286 | The zigzag map is undone exactly for every 64-bit difference. |
| `Words.PackedBack` | src/columnar_encoding.c:85-149 | Words packed with just enough bits for the largest come back whole, whatever follows them. |
| `Words.CountBits` | src/columnar_encoding.c:85-96 | The loop computes the least width that holds the value: the value is below 2^n and not below 2^(n-1). |
| `Rle.RoundTrip` | src/columnar_encoding.c:313-384 | Decoding the runs of any fixed-width stream gives the stream. |
| `Rle.EncodeRle` | src/columnar_encoding.c:313-345 | The loop with its early exit yields the maximal runs, or gives up exactly when they are not shorter than the stream. |
| `Rle.DecodeRle` | src/columnar_encoding.c:347-384 | On arbitrary bytes the loop terminates, raises past the input, and otherwise produces what the run format says. |
| `Rle.DecodeLength` | src/columnar_encoding.c:347-384 | A successful decode has exactly n values. |
| `FrameOfReference.RoundTrip` | src/columnar_encoding.c:391-464 | Frame of reference is undone exactly for widths 1, 2, 4 and 8. |
| `FrameOfReference.OffsetsFromMin` | src/columnar_encoding.c:406-416 | The packed words are the plain differences from the minimum. |
| `FrameOfReference.EncodeFor` | src/columnar_encoding.c:391-432 | The loops yield the frame, or give up exactly when it is not shorter. |
| `FrameOfReference.DecodeFor` | src/columnar_encoding.c:434-464 | Raises on a bad header, width or body; otherwise stores offset plus base for every value. |
| `Delta.RoundTrip` | src/columnar_encoding.c:471-556 | Delta encoding is undone exactly, with differences modulo 2^64. |
| `Delta.EncodeDelta` | src/columnar_encoding.c:471-516 | The loop yields the zigzag deltas frame, or gives up exactly when it is not shorter. |
| `Delta.DecodeDelta` | src/columnar_encoding.c:518-556 | Raises on a bad header, width or body; otherwise stores the running sums. |
| `DeltaOfDelta.RoundTrip` | src/columnar_encoding.c:790-884 | Delta-of-delta encoding is undone exactly, with second differences modulo 2^64. |
| `DeltaOfDelta.EncodeDod` | src/columnar_encoding.c:790-839 | The loop yields the second-difference frame, or gives up exactly when it is not shorter. |
| `DeltaOfDelta.DecodeDod` | src/columnar_encoding.c:841-884 | Raises on a bad header, width or body; otherwise stores the doubly running sums. |
| `Gorilla.RoundTrip` | src/columnar_encoding.c:695-780 | The XOR stream of float4 and float8 values is undone exactly. |
| `Gorilla.UncutCut` | src/columnar_encoding.c:716-726 | Leading zeros, meaningful length and meaningful bits determine the XOR, and fit their fields. |
| `Gorilla.RefLeadingZeros` | src/columnar_encoding.c:2760-2768 | The counting loop the bit scan replaced gives the same number of leading zeros. |
| `Gorilla.EncodeGorilla` | src/columnar_encoding.c:695-739 | The writer loop yields the stream of first value and differences, or gives up exactly when it is not shorter. |
| `Gorilla.DecodeGorilla` | src/columnar_encoding.c:741-780 | On arbitrary bytes raises for fields out of range or past the input, otherwise follows the stream format. |
| `Alp.RoundTrip` | src/columnar_encoding.c:925-1223 | Decimal encoding with verbatim exceptions is undone exactly, whatever the float arithmetic and the chosen scale are. |
| `Alp.EncodeAlp` | src/columnar_encoding.c:1047-1141 | The loops yield header, offsets and exceptions; None when no value is encodable or nothing is gained. |
| `Alp.DecodeAlp` | src/columnar_encoding.c:1144-1223 | Raises on a bad header, width, body, or exception; otherwise rebuilds and patches. |
| `Alp.DecodeLength` | src/columnar_encoding.c:1144-1223 | A successful decode has exactly rawLen bytes, on arbitrary input. |
| `OpenHash.Table.Lookup` | src/columnar_encoding.c:1279-1296 | With any hash function, linear probing terminates and finds the first equal key, as a linear scan would, or the empty slot to insert at. |
| `OpenHash.Table.NotFull` | src/columnar_encoding.c:1252-1263 | A table with more slots than keys always has an empty slot on the probe path. |
| `OpenHash.Table.Insert` | src/columnar_encoding.c:1298-1312 | Inserting at that slot appends the key and keeps every earlier probe path. |
| `Dict.RoundTrip` | src/columnar_encoding.c:1238-1427 | Dictionary encoding of fixed-width and of variable-length values is undone exactly. |
| `Dict.AssignCodes` | src/columnar_encoding.c:1267-1316 | The hashed loop builds the dictionary and codes of the linear first-seen build; it gives up exactly above 1024 distinct values. |
| `Dict.EncodeDict` | src/columnar_encoding.c:1238-1343 | The loops yield dictionary, code width and codes, or give up. |
| `Dict.DecodeDict` | src/columnar_encoding.c:1346-1427 | On arbitrary bytes raises for any entry, code or length out of range, otherwise emits the coded entries. |
| `Dict.CodeIsKnown` | src/columnar_encoding.c:1267-1316 | The code of a value is below the dictionary size, its entry is the value, and it is the code assigned when the value was first met. |
| `Fsst.RoundTrip` | src/columnar_encoding.c:1900-2153 | Greedy longest-match coding then decoding with the same serialized table is the identity, for every input and every table that parses. |
| `Fsst.TableRoundTrip` | src/columnar_encoding.c:1743-1789 | Parsing a serialized table gives the table. |
| `Fsst.LongestIsLongest` | src/columnar_encoding.c:1563-1584 | No symbol longer than the chosen one matches. |
| `Fsst.BuildLookup` | src/columnar_encoding.c:1512-1538 | The lookup holds the symbols in order, duplicates included, with room to probe. |
| `Fsst.LongestMatch` | src/columnar_encoding.c:1563-1584 | Probing lengths from the longest down finds that match. |
| `Fsst.EncodeFsst` | src/columnar_encoding.c:1900-1954 | The coding loop with its early exit yields the code stream, or gives up exactly when it is not shorter; a table that does not parse raises. |
| `Fsst.DecodeFsst` | src/columnar_encoding.c:2034-2153 | With fixed 8-byte stores inside rawLen plus 8 bytes, the first rawLen bytes are those of symbol-length copies; anything out of range raises. |
| `Chunk.RoundTrip` | src/columnar_encoding.c:2320-2645 | Whichever encoding the sampled or exhaustive selection picks, decoding gives the identical bytes, except that RLE of a width other than 1, 2, 4, 8 is refused; the output is never longer than raw, and strictly shorter exactly unless NONE is chosen. |
| `Chunk.SupportedWidths` | src/columnar_encoding.c:2320-2645 | For widths 1, 2, 4, 8 and every variable-length column every chunk is readable. |
| `Chunk.ReadableWidths` | src/columnar_encoding.c:2570-2599 | Every chunk of a column is readable exactly when its width is 1, 2, 4, 8 or variable. |
| `Chunk.UnreadableWhen` | src/columnar_encoding.c:2340-2517 | Exactly which chunks of an odd width the decoder refuses, sampled or not, from the lengths of the runs and of the dictionary form of the chunk and of its sample. |
| `Chunk.EqualValuesUnreadable` | src/columnar_encoding.c:2590-2599 | A chunk of n equal values of an odd width w, sampled or not, is refused exactly when 4 + w < n * w. |
| `Chunk.UuidPairUnreadable` | src/columnar_encoding.c:2590-2599 | The same for a uuid column holding one value twice. |
| `Chunk.BestIsSmallest` | src/columnar_encoding.c:2443-2517 | No candidate that was applied gives fewer bytes than the one kept. |
| `Chunk.DecodeLength` | src/columnar_encoding.c:2570-2645 | On arbitrary bytes, codes and lengths, decoding raises or returns exactly rawLen bytes. |
| `Chunk.EncodeChunk` | src/columnar_encoding.c:2320-2560 | The entry point with its sample, ranking and trial loops computes that selection. |
| `Chunk.DecodeChunk` | src/columnar_encoding.c:2570-2645 | The entry point with its guards computes that decoding. |
| `Chunk.BuildSample` | src/columnar_encoding.c:2267-2296 | Evenly spread windows, each inside the vector; none when there is nothing to gain. |
| `Chunk.WindowsSpread` | src/columnar_encoding.c:2284-2294 | The first window starts the vector, the last ends it, and the distances between windows differ by at most one value. |
| `Chunk.WindowsAt` | src/columnar_encoding.c:2284-2294 | Every window's values stand in the sample in order. |
| `Chunk.RankIsSmallest` | src/columnar_encoding.c:2363-2400 | The two encodings kept from the sample are the two smallest on it. |
| `Chunk.SampleChooses` | src/columnar_encoding.c:2349-2450 | No encoding the sample leaves out is smaller on the sample than one that is applied to the chunk. |
| `Hilbert.UnitSteps` | src/columnar_curve.c:6-17 | Points with consecutive Hilbert indices differ in one coordinate, by one. |
| `Hilbert.PointAtIndex` | src/columnar_curve.c:45-84 | The inverse takes the index of a point back to the point. |
| `Hilbert.IndexPointAt` | src/columnar_curve.c:6-17 | Every index below 2^(nb) is taken, by the point the inverse names. |
| `Hilbert.CubeIsContiguous` | src/columnar_curve.c:6-17 | Every dyadic cube is one contiguous run of indices. |
| `Curve.TransposeSpellsIndex` | src/columnar_curve.c:45-84 | The transposed words, read level by level, spell the Hilbert index of the point. |
| `Curve.TransposeBijection` | src/columnar_curve.c:45-84 | The transform is a bijection on n-tuples of words, with an explicit inverse on both sides. |
| `Curve.TransposeOneColumn` | src/columnar_curve.c:39-44 | With one column it is the identity. |
| `Curve.TopBitsDetermineTopBits` | src/columnar_curve.c:45-84 | For every r, the top r bits of all outputs determine and are determined by the top r bits of all inputs. |
| `Curve.KeyOrderIsCurveOrder` | src/columnar_curve.c:86-127 | memcmp order of packed keys is the order of the Hilbert indices, and equal keys mean equal points. |
| `Curve.HilbertTranspose` | src/columnar_curve.c:45-84 | The in-place loops compute the transform. |
| `Curve.PackInterleave` | src/columnar_curve.c:108-127 | Every byte of the output is established, and together they spell the interleaved words most significant bit first. |
| `Curve.HilbertKey` | src/columnar_curve.c:45-127 | Transpose then pack gives the key of the point. |
| `FlatTree.BuildOk` | src/columnar_flatbuffers.c:33-270 | Every tree of tables, vectors and strings, its children built in any order, is found by the reader where the builder says: no read raises, each slot holds its value or is absent exactly when it held its default or no object, every offset leads to its object, every scalar lies a multiple of its size from the end. |
| `FlatTree.FinishedReads` | src/columnar_flatbuffers.c:248-253 | In the finished buffer the first four bytes lead to the root, the tree reads back, and the length is a multiple of every scalar size in it. |
| `FlatTree.PositionAligned` | src/columnar_flatbuffers.c:81-92 | In such a buffer a scalar's position is a multiple of its size. |
| `FlatTree.BuildAlign` | src/columnar_flatbuffers.c:83-92 | The recorded minimum alignment covers every scalar of the tree. |
| `FlatModel.ObjStable` | src/columnar_flatbuffers.c:16-20 | An object stays readable while anything is prepended. |
| `FlatBuild.FieldFound` | src/columnar_flatbuffers.c:214-246 | Through the vtable the reader finds exactly the offsets the builder recorded, and nothing in a slot beyond them. |
| `FlatBuild.PushedRef` | src/columnar_flatbuffers.c:120-128 | A pushed relative offset leads the reader to its object. |
| `FlatReader.FieldShift` | src/columnar_arrow.c:1421-1440 | Bytes in front move a field's position by their number and change nothing else. |
| `FlatReader.FieldOfTable` | src/columnar_arrow.c:1421-1440 | In every table of the FlatBuffers format, its vtable before or after it, the reader finds each field the vtable gives an offset for, and no other. |
| `FlatBuilder.FBB.Grow` | src/columnar_flatbuffers.c:33-54 | Growth keeps the written bytes and makes room; it raises only when more than half the allocation limit is needed. |
| `FlatBuilder.FBB.PrepFor` | src/columnar_flatbuffers.c:83-92 | The 32-bit padding formula gives the padding the abstract builder asks for. |
| `FlatBuilder.FBB.Add` | src/columnar_flatbuffers.c:165-212 | A slot equal to its default, or a zero offset, is not written; otherwise it is pushed and recorded. |
| `FlatBuilder.FBB.End` | src/columnar_flatbuffers.c:214-246 | Places the vtable and patches the signed offset in place. |
| `FlatBuilder.FBB.CreateString` | src/columnar_flatbuffers.c:255-270 | Writes length, characters and terminator with the abstract layout. |
| `FlatBuilder.FBB.FinishRoot` | src/columnar_flatbuffers.c:248-253 | The finished buffer is aligned to everything in it and begins with the root offset. |
| `FlatBuilder.BuildNode` | src/columnar_arrow.c:842-872 | Building children first, in any order the caller chooses at each node, then the object, reaches the abstract state of the tree, whatever the growth of the buffer. |
| `ArrowBatch.BatchRoundTrip` | src/columnar_arrow.c:882-916 | For every batch of columns of nested lists and structs within the int32 offset range, emitting, assigning buffer indices and reassembling row i gives row i, and the bounds check accepts the batch. |
| `ArrowImport.ImportIsExact` | src/columnar_arrow.c:2292-2448 | The importer accepts n rows of any batch exactly when its buffers represent n rows by the Arrow columnar format, where a bitmap may be absent, slots under nulls are arbitrary and offsets start anywhere; there is one such list of rows, and it is what the importer reads. |
| `ArrowImport.ImportReads` | src/columnar_arrow.c:2292-2349 | Row i of every batch that represents rows, whoever wrote it, is reassembled. |
| `ArrowImport.RepresentedIsAccepted` | src/columnar_arrow.c:2371-2448 | The bounds check accepts every batch that represents the rows. |
| `ArrowImport.AcceptedRepresents` | src/columnar_arrow.c:2371-2448 | Every batch the bounds check accepts represents the rows the importer reads from it. |
| `ArrowImport.NullReads` | src/columnar_arrow.c:1495-1502 | An absent bitmap means no null; a present one is read bit by bit. |
| `ArrowImport.EmittedRepresents` | src/columnar_arrow.c:795-839 | What the exporter emits represents the exported rows. |
| `ArrowBatch.ValueBack` | src/columnar_arrow.c:2292-2349 | Row i of an emitted column is reassembled, at any nesting, with nulls, empty lists and null structs. |
| `ArrowBatch.CheckAccepts` | src/columnar_arrow.c:2371-2448 | The bounds check accepts every emitted column. |
| `ArrowBatch.CheckedReads` | src/columnar_arrow.c:2371-2448 | On any batch whatever, after the bounds check no read of a row below the count leaves its buffer. |
| `ArrowTypes.AppendOk` | src/columnar_arrow.c:495-721 | Appending a row to a shredded column is shredding one row more. |
| `ArrowTypes.ShredRows` | src/columnar_arrow.c:312-721 | Appending a batch row by row to a reset accumulator gives its shredded form. |
| `ArrowLoops.Body.EmitColumn` | src/columnar_arrow.c:795-839 | The recursive emission adds exactly the column's buffers in pre-order, 8-byte padded, with their offsets and lengths. |
| `ArrowLoops.AssignBuffers` | src/columnar_arrow.c:1616-1646 | The running counter assigns the pre-order indices and ends after the subtree. |
| `ArrowLoops.CheckOffsets` | src/columnar_arrow.c:2410-2432 | The offset loop accepts exactly non-negative, non-decreasing offsets inside the buffer and returns the last. |
| `ArrowLoops.PackBits` | src/columnar_arrow.c:803-808 | The bitmap loop spells the flags, least significant bit first. |
| `ReadPins.StatementReadsOneVersion` | objstore/columnar_objstore_module.c:2155-2311 | In every interleaving of other writers with a statement's opens and reads, an object first pinned by a strong ETag and not written by the statement is read in one version only, also after a 403 dropped the version query, and that version has the pinned ETag. |
| `ReadPins.GuaranteedIff` | objstore/columnar_objstore_module.c:2120-2311 | A statement reads one content of an object in every run in which its first open sees a given version and it does not write the object, exactly when that version's ETag is strong. |
| `ReadPins.ReadComesFrom` | objstore/columnar_objstore_module.c:2200-2305 | In every run a read that gave bytes gave the requested range of one version, which has the strong ETag the statement's first open of the object saw, the version it named until a 403, and, when the reply states the object's length, the length that open saw; without a version id that is the length the handle's own open saw. |
| `ReadPins.HandlePin` | objstore/columnar_objstore_module.c:2155-2197 | Every handle reads under what the statement's first open of its object saw; unless that named a version, a later open gets a handle only if it saw the same length. |
| `ReadPins.MatchingReadGives` | objstore/columnar_objstore_module.c:2200-2311 | A request that selects a version of the pinned length and ETag is not refused. |
| `ReadPins.SameVersionOpens` | objstore/columnar_objstore_module.c:2116-2197 | An open that sees the version the statement first saw gets a handle pinned to its length, its strong ETag and its version id. |
| `ReadPins.StepKeepsInv` | objstore/columnar_objstore_module.c:2155-2311 | Overwrites, deletes, opens, reads, retries, own writes and new statements keep the pin invariant. |
| `ReadPins.OpenAgrees` | objstore/columnar_objstore_module.c:2155-2196 | A later open in the statement carries the statement's ETag whenever there is one, and no pin is changed. |
| `ReadPins.PinStays` | objstore/columnar_objstore_module.c:2155-2196 | The pin of the first open is the statement's pin until the statement ends or writes the object. |
| `ReadPins.VersionAloneMixes` | objstore/columnar_objstore_module.c:2223-2240 | For every key, every version without a strong ETag and every other content of its length: opening, reading, an overwrite, a 403 and the same read again is a legal run whose reads no one content explains. |
| `ReadPins.Session.OpenHandle` | objstore/columnar_objstore_module.c:2120-2197 | The pin a new handle gets, the refusal of a changed object, and the statement's pin table after it. |
| `ReadPins.Session.Wrote` | objstore/columnar_objstore_module.c:3189-3198 | A finished export forgets the pin of the object it wrote and no other. |
| `ReadPins.Session.NextStatement` | objstore/columnar_objstore_module.c:371-377 | A new statement begins with no pins. |
| `ReadPins.ObjHandle.Fetch` | objstore/columnar_objstore_module.c:2200-2311 | At most one retry, without the version and with the same If-Match; bytes are returned exactly for a 206 that states no length or the pinned one. |
| `MultipartSink.Sink.Write` | objstore/columnar_objstore_module.c:3101-3125 | After every write the uploaded parts then the buffer are exactly the bytes written, every part is exactly partSize, numbered 1 to k with k at most 10000 and listed in order, and the buffer is below one part. |
| `MultipartSink.Sink.Finish` | objstore/columnar_objstore_module.c:3146-3188 | The committed object is exactly the bytes written; every part but the last is partSize, the last is not empty; a short object is one PUT. |
| `MultipartSink.Sink.FlushPart` | objstore/columnar_objstore_module.c:2935-2978 | The buffer becomes the next numbered part with its ETag listed; part 10001 is refused before it is sent and nothing changes. |
| `MultipartSink.AssembledAll` | objstore/columnar_objstore_module.c:2966-2975 | A store that assembles the listed parts in listed order gets their concatenation. |
| `AvroSpec.EntrySkips` | src/columnar_avro.c:1153-1193 | For every schema and byte string, where projected decoding of a manifest entry succeeds, skipping the record succeeds and ends at the same byte. |
| `AvroEntry.EntryWritten` | src/columnar_avro.c:1100-1193 | For every schema and every record value in the Avro encoding, the decoded entry holds in each part the value written under its name, or the default where it is absent, null or of another type; it is refused exactly when a value exceeds the reader's limits. |
| `AvroWrite.SkipWritten` | src/columnar_avro.c:370-501 | Skipping any written value, with unions, blocks of either count sign, maps and nested records, ends right after it. |
| `AvroEntry.BoundMapWritten` | src/columnar_avro.c:966-1097 | A written array of key and value records decodes to its bounds in order, or is refused exactly for a key outside int32, a value over 65536 bytes or too many records. |
| `AvroEntry.IntArrayWritten` | src/columnar_avro.c:886-955 | A written int array decodes to its ints across blocks, or is refused exactly for an id outside the non-negative int32 or more than 10000. |
| `AvroEntry.CellWritten` | src/columnar_avro.c:693-803 | A written partition value decodes to its cell: null, integer, boolean, bytes, or not comparable. |
| `AvroEntry.FileFieldWritten` | src/columnar_avro.c:1100-1150 | Each field of a data file goes to the part of the entry its name says. |
| `AvroSpec.LongBack` | src/columnar_avro.c:57-85 | Every int64 written as the LEB128 of its zigzag is read back, and the cursor ends after it, whatever follows. |
| `AvroSpec.IntArraySkips` | src/columnar_avro.c:886-955 | Decoding an int array ends where skipping it ends, across unions and blocks with negative counts. |
| `AvroSpec.BoundMapSkips` | src/columnar_avro.c:966-1097 | Decoding a bound map ends where skipping it ends. |
| `AvroSpec.CellSkips` | src/columnar_avro.c:693-803 | Decoding a partition cell ends where skipping it ends. |
| `AvroSpec.UnwrapSkips` | src/columnar_avro.c:505-523 | Skipping a union value is skipping the branch it names. |
| `AvroReader.Reader.SkipValue` | src/columnar_avro.c:370-501 | The recursive skip sets the error flag exactly when the specification fails, otherwise ends at its position; it terminates on every input. |
| `AvroReader.Reader.Varint` | src/columnar_avro.c:57-76 | Reads at most ten bytes; an overlong or truncated number is an error that returns 0 and leaves the cursor after ten bytes or at the end. |
| `AvroReader.Reader.ReadIntArray` | src/columnar_avro.c:886-955 | Values and position of the int array, or an error exactly when the specification has one. |
| `AvroReader.Reader.ReadBoundMap` | src/columnar_avro.c:966-1097 | Bounds and position of the bound map, or an error exactly when the specification has one. |
| `AvroReader.Reader.DecodePartition` | src/columnar_avro.c:676-805 | Cells and position of the partition struct. |
| `AvroReader.Reader.DecodeDataFile` | src/columnar_avro.c:1100-1150 | The projected fields of a data file and the position after it. |
| `AvroReader.Reader.DecodeEntry` | src/columnar_avro.c:1153-1193 | The projected entry, and a cursor exactly where skipping the record leaves it. |
| `AvroDecimal.AppendDecimal` | src/columnar_avro.c:586-656 | For every integer of at most 64 bytes and every scale the text is a sign for negative values only, then a decimal number that an independent reader, which refuses anything but digits and one point after a digit, reads as that integer with `scale` fractional digits and no superfluous leading zero; longer values are hex. |
| `AvroDecimal.DenotesUnique` | src/columnar_avro.c:637-655 | No other text denotes the value at that scale. |
| `AvroDecimal.ToDigits` | src/columnar_avro.c:616-635 | Long division terminates, spells the magnitude without leading zeros, and needs at most 193 digits. |
| `AvroDecimal.DivideByTen` | src/columnar_avro.c:621-629 | One pass divides the big-endian number in place and returns the remainder. |
| `AvroDecimal.Negate` | src/columnar_avro.c:602-615 | Invert and add one gives the magnitude of a negative number. |
| `AvroDecimal.TextDenotes` | src/columnar_avro.c:637-655 | The printed digits are a number with one point in its place (none at scale 0), at least one digit before it and a leading zero only alone, and read back as the number. |
| `Comparison.MetricExact` | src/columnar_iceberg_fdw.c:543-562 | On a proper range the metric test excludes when and only when no value in it satisfies the predicate. |
| `Comparison.FlipSound` | src/columnar_iceberg_fdw.c:688-708 | A predicate read from the other side with the flipped strategy is the same predicate. |
| `IcebergPrune.FileExcludesSound` | src/columnar_iceberg_fdw.c:1268-1384 | A skipped file holds no row that satisfies all predicates of the scan, for every row that lies within the bounds the writer stored, as little-endian two's complement under the field's id, and whose transforms are the integer cells at the fields' positions. |
| `IcebergPrune.CellQualSound` | src/columnar_iceberg_fdw.c:1299-1374 | If a bucket, truncate, day or coarse temporal cell excludes a file, none of its rows satisfies the predicate, in either operand order. |
| `IcebergPrune.CellQualExact` | src/columnar_iceberg_fdw.c:1299-1374 | An integer cell excludes a file exactly when no value with that cell satisfies the predicate, < read as <= for a coarse bucket; but for a truncate range that leaves int64. |
| `IcebergPrune.SilenceNeverExcludes` | src/columnar_iceberg_fdw.c:1279-1374 | A file without a bound in both maps, or without an integer cell of the scan's spec, is never excluded. |
| `IcebergPrune.MetricQualSound` | src/columnar_iceberg_fdw.c:1279-1297 | If the stored bounds exclude a file, none of its rows satisfies the predicate, in either operand order. |
| `IcebergPrune.MetricQualExact` | src/columnar_iceberg_fdw.c:504-562 | Bounds stored in 1, 4 or 8 bytes exclude a file exactly when they are in order and no value between them satisfies the predicate. |
| `IcebergPrune.BoundIntBack` | src/columnar_iceberg_fdw.c:516-541 | A stored boolean, int or long bound is decoded to its value, negative ones too. |
| `IcebergPrune.TemporalSoundIff` | src/columnar_iceberg_fdw.c:947-975 | The coarse temporal test never loses a row exactly when the constant's day or hour bucket does not overflow, or the operator is > or >=. |
| `IcebergPrune.LateConstantLosesRows` | src/columnar_iceberg_fdw.c:967-972 | `ts <` a constant in the last days of the range skips the hour file of 2000-01-01. |
| `IcebergPrune.ConstBucketExact` | src/columnar_iceberg_fdw.c:947-975 | The constant's bucket is the writer's bucket exactly when the epoch shift does not overflow. |
| `IcebergPrune.BucketMonotone` | src/columnar_iceberg_fdw.c:940-975 | Year, month, day and hour buckets are monotone, given a monotone calendar. |
| `IcebergPrune.DayHourBuckets` | src/columnar_iceberg_fdw.c:940-975 | Day bucket k is exactly the k-th day after 1970-01-01, hour buckets its hours, for a date the day itself. |
| `IcebergPrune.YearMonthBuckets` | src/columnar_iceberg_fdw.c:953-964 | Year and month buckets count from 1970 and January 1970. |
| `IcebergPrune.EpochDays` | src/columnar_iceberg_fdw.c:940-975 | The epoch offset is the days of the Gregorian years 1970 to 1999. |
| `IcebergPrune.TemporalSound` | src/columnar_iceberg_fdw.c:572-588 | Under any monotone transform an excluded bucket holds no satisfying value. |
| `IcebergPrune.FloorDivIsFloor` | src/columnar_iceberg_fdw.c:930-938 | The fixed-up truncating division is the floor, for negative dividends too. |
| `IcebergPrune.PruneFile` | src/columnar_iceberg_fdw.c:1268-1384 | The loops skip a file exactly when some qual excludes it. |
| `IcebergPrune.PruneScan` | src/columnar_iceberg_fdw.c:1268-1384 | Compiling the scan's predicates and looping over the resulting quals skips a file exactly when the condition of the soundness theorem holds. |
| `IcebergPrune.QualsExclude` | src/columnar_iceberg_fdw.c:1268-1384 | The list of compiled quals and the predicates they stand for exclude the same files. |
| `TruncKeys.KeysSoundIff` | src/columnar_customscan.c:322-630 | The keys of a date_trunc clause cut off no matching row exactly when the constant is finite or the operator is not <=. |
| `TruncKeys.FiniteKeysExact` | src/columnar_customscan.c:556-630 | For a finite constant the keys, where there are any, select exactly the matching timestamps. |
| `TruncKeys.HasKeysIff` | src/columnar_customscan.c:556-630 | A finite constant has keys exactly when its bucket starts before the last year of the range and, for =, it starts a bucket; no timestamp truncates to a constant that starts none. |
| `TruncKeys.InfinityIsCutOff` | src/columnar_customscan.c:589-592 | `date_trunc(unit, ts) <= 'infinity'` holds of the infinite row and its key refuses it. |
| `TruncKeys.FixedUnitIsGood` | src/columnar_customscan.c:481-488 | Units of a fixed number of microseconds meet the conditions asked of a unit. |
| `LikeKeys.LikeKeysSound` | src/columnar_customscan.c:679-762 | Every text that matches the pattern, escapes included, meets every key. |
| `LikeKeys.PrefixLikeIsKeys` | src/columnar_customscan.c:679-762 | LIKE for an escaped prefix that ends in ASCII followed by % holds of a text exactly when the text meets the keys. |
| `LikeKeys.LikeKeysExact` | src/columnar_customscan.c:724-762 | The texts that meet the keys are those with the literal prefix, or, when it does not end in ASCII, those not before it. |
| `LikeKeys.PrefixOfEscaped` | src/columnar_customscan.c:706-723 | Every text, its special bytes escaped, is found as the literal prefix. |
| `LikeKeys.PrefixRange` | src/columnar_customscan.c:664-676 | Under byte order the range from the prefix to its successor is the prefix set and nothing else. |
| `LikeKeys.LikePrefix` | src/columnar_customscan.c:706-723 | The loop computes the literal prefix before the first unescaped wildcard. |
| `LikeKeys.TextExcludesSound` | src/columnar_customscan.c:643-652 | A text range that a key excludes holds no text that meets the key. |
| `LikeKeys.TextExcludesExact` | src/columnar_customscan.c:643-652 | A key excludes a text range exactly when no text in it meets the key. |
| `InListKeys.InListSound` | src/columnar_customscan.c:792-947 | A listed value meets every key, whether the list became an equality, a set or a range. |
| `InListKeys.InListExact` | src/columnar_customscan.c:792-947 | The values that meet the keys are the listed ones for at most 128 elements, otherwise those between the least and the greatest; only a list of nulls has no key. |
| `InListKeys.FindHull` | src/columnar_customscan.c:872-892 | The loop finds the number of non-null elements and their least and greatest. |
| `InListKeys.HullAttained` | src/columnar_customscan.c:872-892 | The count is the number of non-null elements, and least and greatest are among them. |
| `InListKeys.ExcludesExact` | src/columnar_customscan.c:792-947 | A key excludes a range exactly when no value in it meets the key. |
| `ScanKeys.ClauseKeysSound` | src/columnar_customscan.c:949-1142 | A row that satisfies a comparison, date_trunc, LIKE or IN clause meets every key derived from it, in either operand order. |
| `ScanKeys.ClauseKeysExact` | src/columnar_customscan.c:949-1142 | A comparison, a list of at most 128 elements, a date_trunc clause that has keys and an anchored LIKE are satisfied exactly when their keys are met. |
| `ScanKeys.SkippedGroupHasNoMatch` | src/columnar_customscan.c:1144-1178 | A group that any key excludes holds no row matching the scan. |
| `ScanKeys.BuildScanKeys` | src/columnar_customscan.c:1150-1178 | The loop writes the keys of all clauses into two slots per clause without leaving them, and returns exactly those keys. |
| `ScanKeys.KeysFit` | src/columnar_customscan.c:1164-1170 | The keys of k clauses are at most 2 * k. |

## Assumptions

* Extents: every newly flushed group of an ordered column has a truthful zone map, with a minimum and
  a maximum whenever it has values; the storage lock is held to commit, and the replacing snapshot is
  taken after the lock.
* Delete vectors: an upsert ors the stored bits into the passed bitmap in place, then stores it; an
  aborted subtransaction's catalog writes disappear.
* Encodings: a chunk is the list of its values; for a variable-length column the value lengths are
  the ones the size headers give. Counts and raw lengths fit uint32.
* Clustering keys: the word width is a parameter of the proofs; the source has 64 bits.
* Read pins: the store obeys If-Match (section 13.1.1 of RFC 9110) and version queries, and a strong
  ETag names one content of an object (section 8.8.1 of RFC 9110). Every other reply is arbitrary.
* date_trunc units: monotone functions with the stated conditions, which fixed-length units are shown to
  meet. The clock behind year and month buckets: any that does not run backwards. The bucket hash: any
  function that the writer and the planner share.
* Iceberg files: a row's value lies within the bounds its writer stored, and its transform is the cell.
* Avro: values as long as the types allow, blocks of at most 50 million elements.

## Left out

- IEEE-754 arithmetic: ALP's rounding and rebuilding are two arbitrary functions that encoder and decoder share; the choice of exponent and factor is a parameter.
- FSST table construction, gain thresholds and the distinct-value estimate: they decide size only; any table that parses is covered.
- Buffer sizes beyond uint32 and the 1 GB allocation cap in the encoders: lengths are unbounded numbers, the raised allocation error is not modelled.
- Interrupt checks, memory contexts and pointer aliasing: no effect on results.
- Column extents of several columns and storages at once: one column of one storage is modelled, since rows of different columns never interact except through the shared lock.
- Delete-vector lookup caches (last group, last chunk), the sorted flush order and the row locks taken before a flush: they do not change which rows are marked.
- ArrowCol accumulators updated in place: the accumulator tree is a value and append returns the new one; sharing between accumulators is not captured.
- Arrow field nodes, schema messages, unit conversions of dates and times, and folding of infinite values to null: scalars are the stored bytes.
- FlatBuffers tables nested while another is open: the builder does not support them, and neither does the model.
- HTTP, TLS, signing, deadlines, upload abort and the cleanup of unanswered uploads: I/O; replies are parameters.
- Avro container framing, schema parsing from JSON, inflate, and the display text of partition values other than decimals.
- Identity-partition quals evaluated by the executor, and range-type scan keys.
- Cost estimates, path generation, EXPLAIN, bloom filters, background workers and compression codecs.
- Cursor positions after an error of the composite Avro readers: not specified, because every caller stops on the error flag.
