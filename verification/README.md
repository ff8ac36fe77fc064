# RGX verification

A Dafny model of RGX, a deduplicating archive format with a writer, a
validating reader, a content-defined chunker, two encrypted framed streams, a
recipient envelope and detached signatures, with proofs about every run of the
writer and every file a reader may meet.

`dafny verify dfyconfig.toml` checks the whole project.

## How it is organised

The layers follow the program.

| files | part of RGX |
|---|---|
| `Bytes`, `Sequences` | bytes, machine bounds, little-endian integers, splitting and joining |
| `Chunker`, `Chunking`, `Cuts`, `Dedup` | the rolling hash, where files are cut, why shared data costs nothing |
| `FramedStream`, `FramedWriter`, `Tiling`, `FramedReader` | the frame machine behind both encrypted streams |
| `KeyedStream`, `PrivateStream`, `Sessions` | RGXK and RGXE as instances of it; whole sessions of writes, reads and seeks |
| `Format`, `FormatCodec`, `FormatIO`, `Reprint` | the inner archive as bytes: printer, parser, readers and writers |
| `Sources`, `Paths`, `Catalog`, `Scan`, `Soundness`, `Acceptance` | scanning an archive, what an accepted one guarantees and which ones are accepted |
| `Primitives`, `Pack`, `Ledger`, `Packable`, `RoundTrip`, `ReadBack` | packing, the writer's books, which runs can be packed, and the round trip pack, scan, read |
| `Reconstruct`, `FileTree`, `Extract` | verify, read one entry, extract into a tree |
| `Envelope`, `Transport`, `Protected` | the RGXR envelope, the three ways to keep an archive, packing behind encryption |
| `Authenticity`, `Tampering` | what a stream whose frames open can be |
| `Signature` | the signature text and its parser, signing and checking |

Code that changes state step by step is a class or a method with loops
(`RollingHash.Push`, `Packer`, `ScanArchive`, `Writer`, `Reader`, `Cursor`,
`Tree`); each is proved against a function of its inputs, and the theorems are
about those functions. A method that can fail returns a `Result`, and its
contract says exactly when it succeeds.

`Scanned(utf8, data)` is the catalog of accepted archive bytes and is `None`
for all others. `Packed(p, level, items)` is the archive a run writes.
`Tiled(file, layout, start, k, plain)` says that a file carries `k` full frames
and one final frame. `Carries(t, file, data)` says that a file is what writing
the archive `data` through transport `t` leaves.

## What is assumed

- Gear values are any function from a byte to a 64-bit word.
- A hash is any function to 32 bytes. Where the round trip needs it, it is
  assumed injective on the chunks of that run, never on all byte strings.
- Compression yields something non-empty that decompression to the known size
  undoes.
- Opening a sealed text with the same nonce and associated data gives it back,
  and sealing adds 16 bytes. Opening anything else may succeed or fail: the
  readers are proved correct for frames that do not authenticate, too.
- Joining two UTF-8 texts with `/` gives UTF-8 text; otherwise UTF-8 validity
  is an opaque predicate.
- For the theorems on tampering, and only there: the frames of the file at hand
  that open are frames sealed for the stream written.
- A signing key's public half accepts what the key signs.
- Files are at most 2^63 - 1 bytes long.

## Where the code differs from what is said of it

- Packing can succeed on an entry list that every reader then refuses: a name
  with a backslash is stored as it is. `BackslashRefused` gives such a run and
  `PackedScans` says exactly when a packed run scans.
- The signature parser is described as canonical, but takes hexadecimal in
  capitals, a plus sign or leading zeros in the length, and text without its
  final newline. `SignatureCodec` lists all accepted texts, `AnotherSpelling`
  gives one that is not canonical, and `CanonicalSpelling` says exactly which
  ones are.
- `docs/FORMAT.md` gives header flags and reserved fields the value 0. The
  writer does (`PackedCanonical`), but readers ignore these bytes: any values
  are accepted with the same catalog (`IgnoredBytesFree`), for instance a
  header flag (`FlagAccepted`), and nothing else may differ (`OnlyFreedom`).
  `CanonicalBytes` says exactly when accepted bytes are the canonical print.
- The top-level README says that chunks are at least 64 KiB. The last chunk of
  a file may be shorter: a file below 64 KiB is one short chunk (`ShortFile`),
  and `ShortChunk` says exactly when a file has one.
- `docs/FORMAT.md` asks for exactly one authenticated final frame. A final
  frame without bytes is never opened (`FinalBodyUnread`; `UnopenedFinal` is an
  example), so reading every byte opens every frame exactly when the final frame holds bytes or opens by
  itself (`ReadingOpens`). A whole archive inside is not affected: what is read
  then either is the archive written or does not scan (`ArchiveIsWhole`).
- RGXK refuses seeks past the end of the plaintext, RGXE and plain files do
  not. Both rules are kept.

## Model

| member | source | states |
|---|---|---|
| `Chunker.RollingHash.Push` | src/chunker.rs:28-44 | pushing a byte returns the hash of the last 64 bytes recomputed from nothing, and keeps the circular window equal to those bytes |
| `Chunker.StateStep` | src/chunker.rs:28-44 | the one-step update equals recomputation: below a full window the byte is mixed in, afterwards the outgoing byte cancels out |
| `Chunker.RotateFullTurn` | src/chunker.rs:38-43 | sixty-four one-bit rotations of a 64-bit word are the identity, so the outgoing term needs no rotation |
| `Chunker.WindowHashPush` | src/chunker.rs:31-43 | appending a byte to a window rotates its hash and mixes in the gear word |
| `Chunker.StateForgets` | src/chunker.rs:27-45 | the state depends on the last 64 bytes alone |
| `Chunker.CircularPush` | src/chunker.rs:31-43 | the slot about to be overwritten holds the byte pushed 64 steps ago |
| `Chunking.ChunksOfFile` | src/archive.rs:347-376 | chunks concatenate to the file; each has 1 byte to 1 MiB, all but the last at least 64 KiB; n chunks satisfy (n-1) * 64 KiB < size <= n * 1 MiB |
| `Chunking.ChunkLimit` | src/archive.rs:378-381 | files up to 64 GiB never exceed the limit on chunks per file, files beyond 1 TiB always do |
| `Chunking.ShortChunk` | src/archive.rs:347-376 | a file has a chunk below 64 KiB exactly when some bytes, but fewer than that, are left after the last cut; they are then the last chunk |
| `Chunking.ShortFile` | src/archive.rs:374-376 | a non-empty file below 64 KiB is one chunk |
| `Cuts.CutsOfFile` | src/archive.rs:347-376 | a list of pieces is the chunks of a file exactly when each piece ends at the first place at least 64 KiB behind its start where the hash of the last 64 bytes, computed from nothing, ends in 18 zero bits, at the latest after 1 MiB or where the file ends |
| `Cuts.CutDecision` | src/chunker.rs:47-49 | after any byte the rolling decision is the one told from the last 64 bytes and the length alone |
| `Chunking.HistoryIrrelevant` | src/archive.rs:347-376 | bytes pushed before the pending chunk never influence a cut |
| `Chunking.MemorylessAtCuts` | src/archive.rs:347-376 | from any cut on, the chunks of a file are the chunks of the rest taken as a file of its own, though the hash is never reset |
| `Chunking.SharedSuffix` | src/archive.rs:347-376 | two files with a common suffix and a cut where it starts share all chunks of the suffix |
| `Dedup.SeenAddsNothing` | src/archive.rs:413-447 | chunks already seen add no records, and all their bytes are counted as deduplicated |
| `Dedup.RunSeen` | src/archive.rs:413-447 | after any run, the hash of every chunk of every file packed in it is seen |
| `Dedup.SharedSuffixSaved` | src/archive.rs:329-449 | two files of one run with a common suffix and a cut where it starts: packing the later one emits chunk records only for the part before it and counts the whole suffix as deduplicated |
| `FramedStream.FrameHeaderCodec` | src/keyed_stream.rs:344-383 | a frame header decodes to f exactly when it is the encoding of f and f is acceptable for the frame size |
| `FramedStream.NoncesDistinct` | src/keyed_stream.rs:385-392 | frames with different numbers have different nonces |
| `FramedStream.FrameCounts` | src/keyed_stream.rs:60-125 | n bytes become n / frame_size full frames and one final frame of n % frame_size bytes, possibly none |
| `FramedStream.BlocksUnique` | src/keyed_stream.rs:102-121 | the decomposition into full blocks and a shorter rest is unique, so buffering cannot matter |
| `FramedWriter.Writer.Emit` | src/keyed_stream.rs:60-90 | appends the sealed buffer under the current number; fails exactly when the number cannot be advanced, after the frame is out |
| `FramedWriter.Writer.Fill` | src/keyed_stream.rs:110-119 | one turn of the write loop keeps the file equal to the sealed full blocks and the buffer shorter than a frame; fails exactly when the frame numbers run out |
| `FramedWriter.Writer.Write` | src/keyed_stream.rs:103-121 | accepts all bytes unless the stream is finished or 64-bit frame numbers run out, and keeps the file equal to the sealed full blocks |
| `FramedWriter.Writer.Finish` | src/keyed_stream.rs:92-99 | leaves exactly the stream of all bytes written; a second call changes nothing |
| `Tiling.TilingUnique` | src/keyed_stream.rs:160-203 | a file is tiled by frames in at most one way |
| `Tiling.WrittenStreamTiled` | src/keyed_stream.rs:60-125 | a written stream is tiled, and each of its frames opens to its block |
| `Tiling.WrittenStreamReads` | src/keyed_stream.rs:219-285 | the plaintext of a written stream is the data written, and every byte is readable |
| `FramedReader.CheckFrame` | src/keyed_stream.rs:166-193 | the header of the next frame passes only if it has the expected number and lies inside the file; a refusal means that the file holds no stream at all |
| `FramedReader.ScanFrames` | src/keyed_stream.rs:160-203 | opening succeeds exactly on well-tiled streams, returns their length and final frame number, terminates, and never meets an offset overflow |
| `FramedReader.Reader.FetchFrame` | src/keyed_stream.rs:219-258 | reading a frame again fails only if it does not authenticate: the truncation, number and header branches are dead |
| `FramedReader.Reader.LoadFrame` | src/keyed_stream.rs:219-258 | keeps the cache invariant: a cached number comes with the plaintext of that frame |
| `FramedReader.Reader.CopyFromFrame` | src/keyed_stream.rs:267-282 | one turn of the loop always copies something; the branch for no available bytes is dead |
| `FramedReader.Reader.Read` | src/keyed_stream.rs:262-285 | returns exactly the window of the plaintext at the cursor, and succeeds exactly when every frame it touches authenticates; otherwise the cursor stops at the first byte that cannot be read |
| `FramedReader.Reader.Seek` | src/keyed_stream.rs:289-303 | moves to the target, refusing those below zero or beyond the limit of the stream, and then stays where it was |
| `FramedReader.PositionInStream` | src/keyed_stream.rs:267-277 | a position inside the plaintext selects a frame not beyond the final one and a byte it holds |
| `FramedReader.FrameIsWindow` | src/keyed_stream.rs:267-282 | a run of bytes inside the opened frame is the same run of the plaintext |
| `FramedReader.HeaderStillGood` | src/keyed_stream.rs:232-238 | a frame header accepted on opening is accepted when read again |
| `KeyedStream.HeaderCodec` | src/keyed_stream.rs:306-342 | an RGXK header decodes to h exactly when it is the encoding of an acceptable h |
| `KeyedStream.New` | src/keyed_stream.rs:38-58 | a new writer has put the header after what the file held and nothing else |
| `KeyedStream.Open` | src/keyed_stream.rs:142-217 | opens exactly the files that hold a stream bound to the given envelope hash from the given offset to the end |
| `PrivateStream.HeaderCodec` | src/private.rs:440-488 | an RGXE header of minor version 3 or 4 decodes to h exactly when it is the encoding of h and the key-derivation parameters are allowed |
| `PrivateStream.New` | src/private.rs:143-175 | a new writer uses the fixed parameters and a key derived with them; fails exactly when derivation does |
| `PrivateStream.Open` | src/private.rs:244-304 | opens exactly the files that hold an RGXE stream whose key the password yields |
| `Sessions.WritePieces` | src/private.rs:195-224 | every split of the plaintext into writes leaves the same file |
| `Sessions.Replay` | src/keyed_stream.rs:261-304 | over any stream that opened every list of reads and seeks is answered as by a byte array with a cursor, where reads over bytes of frames that do not authenticate are refused and stop in front of them |
| `Sessions.GoodReads` | src/keyed_stream.rs:261-285 | where all frames authenticate every read is answered with what lies at the cursor |
| `Sessions.KeyedSession` | src/keyed_stream.rs:37-304 | write in any pieces, finish, open, read and seek at will: RGXK refines the byte array, with seeks bounded by its end |
| `Sessions.PrivateSession` | src/private.rs:142-394 | the same for RGXE, with seeks past the end allowed |
| `Sessions.KeyedWritten` | src/keyed_stream.rs:142-217 | a written stream is a stream in exactly one way and reads back as the data |
| `Sessions.PrivateWritten` | src/private.rs:244-304 | the same for RGXE |
| `Authenticity.FrameGenuine` | src/keyed_stream.rs:219-258 | a frame that opens is the sealed frame of its own number, under the very stream header it was sealed under |
| `Authenticity.AllOpenIsWhole` | src/keyed_stream.rs:142-258 | a stream all of whose frames open is byte for byte the stream written: nothing modified, reordered, removed or added |
| `Authenticity.TextsTogether` | src/keyed_stream.rs:261-285 | what can be read of a stream is the front of the data written |
| `Authenticity.TotalWithin` | src/keyed_stream.rs:261-285 | and all of it if the final frame holds bytes |
| `Authenticity.WrittenIsGenuine` | src/keyed_stream.rs:60-90 | the frames of a written stream are the frames sealed |
| `Authenticity.ReadingOpens` | src/keyed_stream.rs:261-285 | reading every byte opens every frame exactly when the final frame holds bytes or opens by itself |
| `Authenticity.FinalBodyUnread` | src/keyed_stream.rs:142-285 | the body of an empty final frame changes neither opening nor what is read |
| `Authenticity.UnopenedFinal` | src/keyed_stream.rs:160-203 | an empty stream opens and reads to its end even if its final frame does not open |
| `Authenticity.ArchiveIsWhole` | src/archive.rs:569-577 | when the archive written scans and what can be read of the stream scans, they are the same |
| `Tampering.KeyedIsWhole` | src/keyed_stream.rs:142-217 | an RGXK stream all of whose frames open is the one written, header and envelope hash included |
| `Tampering.PrivateIsWhole` | src/private.rs:244-304 | an RGXE file all of whose frames open is the one written |
| `Tampering.RecipientIsWhole` | src/recipient_archive.rs:228-236 | a recipient file all of whose frames open is an envelope with the hash of the one written, followed by the stream written |
| `Tampering.EnvelopeBound` | src/recipient_archive.rs:76-87 | a payload behind any envelope opens exactly when that envelope has the hash in the payload's header |
| `FormatCodec.RecordCodec` | src/format.rs:89-155 | a record parses to r exactly when the bytes are the print of r and its values fit their fields |
| `FormatCodec.FooterCodec` | src/format.rs:157-181 | the same for the footer and its eight counters |
| `FormatCodec.ArchiveCodec` | src/format.rs:56-190 | archive bytes parse to a exactly when they are the print of a fitting a; nothing may follow the footer |
| `FormatCodec.PrintInjective` | src/format.rs:56-181 | distinct archives never print alike |
| `FormatCodec.NoProperPrefix` | src/archive.rs:569-577 | a proper prefix of an archive is never an archive |
| `FormatIO.WriteChunkHeader` | src/format.rs:89-97 | appends the print of a chunk header with zero padding |
| `FormatIO.WriteFileHeader` | src/format.rs:117-124 | appends the print of a file header |
| `FormatIO.WriteDirectoryHeader` | src/format.rs:141-149 | appends the print of a directory header |
| `FormatIO.WriteFooter` | src/format.rs:157-168 | appends the print of a footer |
| `FormatIO.ReadChunkHeaderAfterMagic` | src/format.rs:99-115 | over any source, reads the fields the parser finds there; on an authentic one it fails only at the end of the data |
| `FormatIO.ReadFileHeaderAfterMagic` | src/format.rs:126-139 | the same for a file header |
| `FormatIO.ReadFooterAfterMagic` | src/format.rs:170-181 | the same for a footer |
| `Reprint.AcceptedReprints` | src/archive.rs:451-612 | reprinting an accepted archive canonically keeps its length, acceptance and catalog and changes ignored bytes only |
| `Reprint.CanonicalScansAlike` | src/archive.rs:451-612 | archives with the same canonical form scan alike: no reader looks at header flags or reserved fields |
| `Reprint.OnlyFreedom` | src/format.rs:65-155 | bytes parse to an archive with a given canonical form exactly when they differ from its print in ignored bytes only |
| `Reprint.IgnoredBytesFree` | src/archive.rs:451-612 | any values in the ignored bytes of an accepted archive leave it accepted with the same catalog |
| `Reprint.CanonicalBytes` | src/format.rs:56-181 | archive bytes are the canonical print exactly when flags, reserved fields and paddings are all zero |
| `FormatIO.ReadTag` | src/format.rs:183-190 | distinguishes the end of the data, reached within four bytes, from a marker |
| `FormatIO.ReadHeader` | src/format.rs:65-87 | accepts exactly the headers with the right magic and version |
| `Sources.Source.ReadExact` | src/format.rs:204-220 | returns exactly the next n bytes of the archive over any of the three kinds of source, and fails exactly when fewer are left or one of them cannot be read |
| `Sources.Source.Seek` | src/keyed_stream.rs:289-303 | over any source, moves to the target or refuses it by the limit of that kind of source and stays where it was |
| `Paths.ValidateArchivePath` | src/archive.rs:773-786 | accepts exactly the valid paths; the platform's component check behind it never refuses one |
| `Paths.NormalizeRelativePath` | src/archive.rs:755-771 | joins normal UTF-8 components with `/`, refusing everything else |
| `Paths.NormalizedIsValid` | src/archive.rs:755-786 | a stored path splits back into its names and is a valid archive path exactly when no name has a backslash |
| `Paths.ValidatePathTree` | src/archive.rs:803-814 | accepts exactly the trees in which no file path is a proper prefix of a path |
| `Paths.TreeMeaning` | src/archive.rs:803-814 | in terms of components: no file is a proper ancestor of any entry |
| `Scan.ScanArchive` | src/archive.rs:451-612 | over any source the one-pass scan accepts exactly the archives that the checks on the parsed records accept, with the same catalog; over a source with bad frames it never accepts anything else |
| `Scan.ScanChunk` | src/archive.rs:474-499 | one chunk record updates the table exactly as the checks say, and skips the payload by a seek that may leave the archive |
| `Scan.ReadPath` | src/archive.rs:738-746 | reads a path of the declared length; refuses empty and over-long lengths and text that is not UTF-8 |
| `Scan.ScanDirectory` | src/archive.rs:501-513 | one directory record updates the paths and counters exactly as the checks say |
| `Scan.ScanFile` | src/archive.rs:515-566 | one file record is accepted exactly when its path is new and valid and its references resolve to its size |
| `Scan.ScanReferences` | src/archive.rs:527-548 | references are read and resolved one by one; an early refusal is a refusal of the whole file record |
| `Scan.CompareFooter` | src/archive.rs:579-611 | accepts exactly when the tree, the reference check and all recomputed statistics agree with the footer |
| `Scan.FinishScan` | src/archive.rs:569-611 | after the footer marker: accepts exactly if the footer is whole, nothing follows it and it agrees |
| `Scan.SumUnique` | src/archive.rs:584-586 | the sum of the chunk sizes does not depend on the order of the table |
| `Soundness.ScanSound` | src/archive.rs:451-612 | for arbitrary bytes: chunk payloads lie inside the archive and are disjoint, every chunk header is valid, and every file resolves to chunks adding up to its size |
| `Soundness.PathsSound` | src/archive.rs:773-814 | for arbitrary bytes: paths are valid and unique, and no file is an ancestor of another entry |
| `Soundness.ChunkTable` | src/archive.rs:474-499 | the table holds exactly the chunk records, each at its own offset |
| `Soundness.ReferencesPointBack` | src/archive.rs:527-548 | every reference of an accepted file names an earlier chunk record |
| `Soundness.PayloadBytes` | src/archive.rs:689-697 | the range the table gives for a chunk holds that record's payload |
| `Soundness.FoldBalanced` | src/archive.rs:465-572 | after every record: declared file sizes equal the bytes referenced, every referenced chunk is in the table, the referenced chunks weigh no more than those bytes, and stored bytes never exceed unique bytes |
| `Soundness.NoBadStatistics` | src/archive.rs:579-589 | once all chunks are referenced, neither the overflow of the unique sizes nor invalid deduplication statistics can occur |
| `Soundness.Conservation` | src/archive.rs:579-604 | original bytes = unique bytes + deduplicated bytes, stored + deduplicated bytes <= original bytes, and the counts are those of the lists |
| `Acceptance.AcceptedExactly` | src/archive.rs:451-612 | an archive scans exactly when its records and footer are acceptable: chunk sizes and forms allowed and hashes new, paths valid, new and text, references backward and of the declared size, every chunk referenced, no file above an entry, and the footer the counts and sums; the catalog then is what the records say |
| `Acceptance.AcceptedBytes` | src/archive.rs:451-612 | bytes scan exactly when they print such an archive |
| `Acceptance.FoldExactly` | src/archive.rs:465-572 | the record loop gets through exactly when each record is in order and no total exceeds 64 bits |
| `Acceptance.ChunksReferenced` | src/archive.rs:579-582 | the chunks of an accepted archive are exactly those that its files refer to |
| `Pack.Packer.WriteOrReferenceChunk` | src/archive.rs:401-449 | a chunk is emitted once, compressed only if that is shorter, and otherwise referenced, with the counters kept in step |
| `Pack.Packer.AddChunks` | src/archive.rs:341-376 | the loop over reads and bytes packs exactly the chunks of the contents, however the reads were split |
| `Pack.Packer.AddFile` | src/archive.rs:329-399 | a file adds its new chunks and then its record, or fails exactly on overflow, too many chunks or a compressor error |
| `Pack.Packer.AddItem` | src/archive.rs:98-137 | links, special files and walk errors stop the run; directories and files are recorded under their normalised path |
| `Pack.Packer.WriteFileRecord` | src/archive.rs:383-393 | appends the print of the file record with its references in order |
| `Pack.PackToWriter` | src/archive.rs:85-152 | a run writes the print of the packed archive and returns its footer, or fails exactly when packing is refused |
| `Packable.PacksExactly` | src/archive.rs:85-152 | a run packs exactly when the level is 1 to 22, every entry is a directory or a file of at most 2^20 chunks with a non-empty path of normal text names up to 1 MiB, the compressor answers on every first occurrence of a chunk hash, and entries and bytes can be counted in 64 bits |
| `Packable.UsualRunsPack` | src/archive.rs:85-152 | so every run of such directories and files up to 64 GiB packs, if the compressor never fails |
| `Packable.RunStored` | src/archive.rs:413-447 | every chunk record of a run holds a chunk of the run with its hash and size, compressed if and only if that is shorter |
| `RoundTrip.StoredPathAccepted` | src/archive.rs:755-786 | a stored path passes the reader's checks unless it has a backslash or was seen |
| `RoundTrip.NewChunkStep` | src/archive.rs:413-447 | the scan accepts a newly emitted chunk and stays in step with the writer |
| `RoundTrip.Run` | src/archive.rs:85-152 | by induction over all runs: the scan of what has been written follows the writer entry by entry |
| `ReadBack.PackedFits` | src/archive.rs:85-152 | every value of a packed archive fits its field |
| `ReadBack.PackedScans` | src/archive.rs:451-612 | a packed run scans exactly when its paths have no backslash, are distinct and form a tree; the catalog then lists exactly the packed entries in order |
| `ReadBack.FolderScans` | src/archive.rs:755-786 | a run of one folder packs, and scans exactly when the name has no backslash |
| `ReadBack.BackslashRefused` | src/archive.rs:755-786 | packing a folder named with a backslash succeeds and the result does not scan |
| `ReadBack.PackedCanonical` | src/archive.rs:93-149 | the writer prints canonical archives only |
| `ReadBack.FlagAccepted` | src/format.rs:65-87 | an archive with a header flag set scans like the packed one and is not canonical |
| `ReadBack.StatisticsInStep` | src/archive.rs:98-149 | at every entry boundary of a run of real names and distinct chunk hashes, if the paths so far can be scanned: the hashes emitted equal those a scan finds and those referenced, and the eight counters are those a scan recomputes |
| `Ledger.RunBooked` | src/archive.rs:98-149 | after every run, whatever its paths and the hash: the hashes emitted equal those seen and those referenced, each distinct one is emitted once, and the eight counters are the counts and sums of the records |
| `ReadBack.PackedReadsBack` | src/archive.rs:302-327 | after packing, the archive verifies and every file reads back as it was |
| `Reconstruct.ReadChunkData` | src/archive.rs:689-716 | returns the decoded payload exactly when it has the declared size and hash |
| `Reconstruct.VerifyFileRecord` | src/archive.rs:614-638 | feeds the chunks to the hasher one by one and succeeds exactly when the file has its declared size and hash |
| `Reconstruct.CollectFile` | src/archive.rs:309-326 | collects the contents of a file, of the size and hash of its record, exactly when it checks |
| `Reconstruct.EntryOfFile` | src/archive.rs:302-327 | looking up a listed path finds that very file record |
| `Reconstruct.FileMeaning` | src/archive.rs:614-638 | a file has some contents exactly when they are the concatenation of parts, one for each reference in order, each what its payload stands for and of the recorded size and hash, and together of the file's size and hash |
| `Reconstruct.IntactMeaning` | src/archive.rs:220-226 | all files check exactly when each can be rebuilt so |
| `Reconstruct.EntryMeaning` | src/archive.rs:302-327 | reading a path answers some contents exactly when the archive scans and a file listed under the path is rebuilt to them; unlisted paths answer nothing |
| `Reconstruct.VerifyReader` | src/archive.rs:220-226 | success means that the archive scans and every file is rebuilt from its chunks with the declared size and hash; on an authentic source it succeeds exactly then |
| `Reconstruct.ReadEntryReader` | src/archive.rs:302-327 | a result is the contents of the listed file, whose path is valid, listed and intact; on an authentic source there is one exactly then |
| `Reconstruct.VerifyMeansReadable` | src/archive.rs:220-226 | verification succeeds exactly when every listed file can be read |
| `Reconstruct.SizeNeverFails` | src/archive.rs:614-638 | on an accepted archive, decoded chunks add up to the declared file size, so that comparison never fails |
| `FileTree.Tree.CreateDirAll` | src/archive.rs:281-282 | creating a directory and its ancestors succeeds exactly when no file is in the way |
| `FileTree.Tree.CreateNew` | src/archive.rs:650-652 | a file is created only where nothing is and below an existing directory |
| `Extract.MatchesMeaning` | src/archive.rs:254-261 | a selection matches exactly the path itself and the paths below it, component-wise |
| `Extract.SortOrders` | src/archive.rs:278-282 | directories are created by depth, none lost and none twice |
| `Extract.AcceptedExtractable` | src/archive.rs:803-814 | no two creation steps of an accepted archive collide |
| `Extract.TreeDetermined` | src/archive.rs:242-293 | the selected entries determine the final tree, whatever the order of the records |
| `Extract.ExtractReader` | src/archive.rs:242-293 | the final tree is the selected files and directories with their ancestors and nothing else; any failure leaves what was there before; it succeeds exactly when something is selected and all selected files check |
| `Extract.CopyChunks` | src/archive.rs:653-682 | appends the decoded chunks to the new file, so that it holds the contents, of the size and hash of its record, exactly when they check |
| `Extract.ExtractFileRecord` | src/archive.rs:640-687 | adds exactly one file and its ancestors to the tree; on failure the file is gone again |
| `Extract.BuildTree` | src/archive.rs:276-287 | directories, then files: the tree is what was asked for exactly when all files check |
| `Extract.FullExtractionAgrees` | src/archive.rs:242-293 | full extraction succeeds exactly when verification does and writes what reading returns |
| `Extract.TreeInPlainTerms` | src/archive.rs:242-293 | the extracted tree has a node for the root, each wanted entry and its ancestors and for nothing else, and its files are the wanted files with the contents they are rebuilt to |
| `Extract.SelectionMeaning` | src/archive.rs:244-274 | a selection is refused exactly when the path is not valid or no entry is at or below it |
| `Envelope.EncodeEnvelope` | src/recipient_archive.rs:238-276 | builds the envelope slot by slot; only a recipient count beyond 16 bits is refused |
| `Envelope.SlotsCodec` | src/recipient_archive.rs:327-334 | slots read from bytes are given slots exactly when the bytes are their print |
| `Envelope.PasswordCodec` | src/recipient_archive.rs:336-348 | a password slot reads as given values exactly when the bytes are their print |
| `Envelope.PrefixCodec` | src/recipient_archive.rs:278-309 | the prefix is accepted for a count and flag exactly when it is their print, with the length they imply |
| `Envelope.ValidatePrefix` | src/recipient_archive.rs:278-298 | accepts exactly the prefixes with the right magic and version, known flags, 1 to 64 recipients and a zero reserved field |
| `Envelope.ReadRecipientSlot` | src/recipient_archive.rs:327-334 | consumes one slot, or fails exactly when fewer bytes are left |
| `Envelope.EnvelopeCodec` | src/recipient_archive.rs:97-148 | a file is read as an envelope exactly when it is that envelope's print followed by an RGXK payload |
| `Envelope.EnvelopeRoundTrip` | src/recipient_archive.rs:238-276 | for 1 to 64 recipients and any password slot, the printed envelope with any payload reads back the same slots and offset |
| `Envelope.ReadSlots` | src/recipient_archive.rs:118-134 | reading the slots of a complete header never fails and consumes it to the last byte |
| `Envelope.ReadEnvelope` | src/recipient_archive.rs:97-148 | accepts exactly the files that parse as an envelope with a payload |
| `Transport.OpenSource` | src/recipient_archive.rs:228-236 | opens exactly the files holding a stream of the right kind, at its plaintext, with the seek limit of that kind |
| `Transport.ScanFile` | src/recipient_archive.rs:208-211 | through any transport, scanning gives the catalog of the inner archive, and on an authentic file exactly when there is one |
| `Transport.VerifyFile` | src/recipient_archive.rs:203-206 | through any transport, success means that the inner archive verifies, and on an authentic file verification succeeds exactly then |
| `Transport.ReadEntry` | src/recipient_archive.rs:223-226 | through any transport, reading an entry returns the contents in the inner archive |
| `Transport.CarriedIsInner` | src/private.rs:60-130 | what was written in any of the three ways is what is found there, and all of it authenticates |
| `Transport.TransportIndependent` | src/archive.rs:451-612 | the same archive kept in two ways has one catalog, verifies alike and reads alike |
| `Transport.ScanThreeWays` | src/archive.rs:451-612 | scanning a plain file, an RGXE file and a recipient file of one archive accepts alike with equal catalogs, though their seek rules differ |
| `Transport.ExtractFile` | src/recipient_archive.rs:193-201 | extraction through any transport leaves the tree of the inner archive, or nothing |
| `Protected.PackPrivate` | src/private.rs:60-90 | packing under a password leaves an RGXE file carrying the packed archive, or fails exactly on the listed conditions |
| `Protected.PackRecipient` | src/recipient_archive.rs:36-95 | the same for 1 to 64 recipients, with the stream bound to the envelope |
| `Protected.ProtectedReadsBack` | src/recipient_archive.rs:203-226 | pack, protect, open, scan, verify and read give back every packed file, in each of the three ways |
| `Protected.ExtractPacked` | src/recipient_archive.rs:193-201 | pack, protect and extract give back the packed tree with its contents |
| `Signature.HexCodec` | src/signature.rs:164-195 | hexadecimal text decodes to b exactly when it is the encoding of b up to letter case |
| `Signature.HexDecodeLoop` | src/signature.rs:174-186 | the loop accepts exactly the texts of the right length that decode, with that value |
| `Signature.HexEncodeLoop` | src/signature.rs:164-172 | the loop writes the encoding that the decoder inverts |
| `Signature.DecimalCodec` | src/signature.rs:111-113 | a length text reads as n exactly when it is an optional plus sign, zeros and the decimal form of an n within 64 bits |
| `Signature.FieldCodec` | src/signature.rs:124-135 | a line yields a value exactly when it is the label, one space and a non-empty value without white space at either end |
| `Signature.SignatureCodec` | src/signature.rs:92-122 | a text is accepted as r exactly when it is the six lines in order with the fields of r in one of their spellings, with or without the final newline |
| `Signature.SignatureRoundTrip` | src/signature.rs:36-42 | the printed signature parses to its record |
| `Signature.AnotherSpelling` | src/signature.rs:92-122 | some accepted text is not canonical |
| `Signature.CanonicalSpelling` | src/signature.rs:92-122 | an accepted text is the printed one exactly when it ends in a newline, has no capital digits, and its length has no sign and no leading zeros |
| `Signature.HashArchive` | src/signature.rs:145-162 | the length and digest do not depend on how the file was read |
| `Signature.SignArchive` | src/signature.rs:24-50 | prints the record of the archive's length and digest with the signature over them |
| `Signature.VerifyArchiveSignature` | src/signature.rs:52-79 | accepts exactly the texts that spell a record with the key's identifier, the length and digest of the archive and a signature that the key accepts over them |
| `Signature.VouchedText` | src/signature.rs:52-79 | acceptance in terms of the text: it spells a record with the key's identifier, the archive's length and digest, and a signature that the key accepts over the context, the length and the digest |
| `Signature.ForgedIsRefused` | src/signature.rs:71-73 | a text whose signature the key refuses is accepted for no archive |
| `Signature.LastLineExchanged` | src/signature.rs:71-73 | nor is a signed text whose signature line was exchanged for one the key refuses |
| `Signature.SignedIsVouched` | src/signature.rs:24-50 | a signature made with a key verifies with its public half, for this archive and for no other length or digest |
| `Signature.MessageInjective` | src/signature.rs:137-143 | distinct lengths or digests are signed as distinct messages |

## Left out

- The insides of BLAKE3, Zstandard, Argon2id, XChaCha20-Poly1305, X25519 and Ed25519: opaque functions with the laws listed above.
- Key wrapping, key files, identity discovery and unlocking: slots are given already wrapped, and a stream's cipher already keyed.
- Random bytes: salts, nonce prefixes and archive keys are parameters, and nonces are distinct within one stream only.
- Machine words: `usize` is taken to be 64 bits wide.
- Failing output: a sink accepts every byte, so errors of the underlying writer and flushing are not modelled. `PackToWriter` builds the archive as one value that `PackPrivate` and `PackRecipient` then write; by `WritePieces` no other split gives another file.
- Failing input: a plain file always reads, and short reads of a plain file happen only at its end. Packing takes the reads of a file in any split.
- The file system: extraction writes into an abstract case-sensitive tree below the output directory, and the only failures there are an existing or uncreatable output and collisions. Temporary files, permissions, canonical paths and the check that the output is not inside the input are not modelled.
- The directory walk: entries arrive as a list in any order, with names that are not empty, `.` or `..` and contain no `/`. Windows prefixes and separators are not modelled.
- Seeks of plain files: the operating system's limit of 2^63 - 1 is modelled as 2^64 - 1. No accepted or rejected archive depends on it, since both lie beyond every file.
- The kind of an error: results say that an operation fails, and the tag of the error is not specified except where a contract names it.
- `list`, `find`, `detect_kind`, the command line, the desktop application, benchmarks and packaging: listings, filters, dispatch and rendering over the same catalog are not modelled.
- UTF-8 decoding and case folding: paths are byte strings with an opaque validity predicate.
- File sizes beyond 64 bits are refused by the model at the end of the file; the code refuses them at the read that overflows, and both refuse the same files.
