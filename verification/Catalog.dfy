// What a reader makes of a sequence of records: the checks it performs on each
// one, the tables and counters it builds, and the final comparison with the
// footer.
module Catalog {
  import opened Bytes
  import opened Format
  import opened Paths
  import Chunker
  import Chunking

  datatype ChunkMeta = ChunkMeta(compression: byte, originalSize: nat, payloadSize: nat, payloadOffset: nat)

  datatype FileRecord = FileRecord(path: Path, originalSize: nat, hash: Digest, chunkHashes: seq<Digest>)

  datatype ScanState = ScanState(
    chunks: map<Digest, ChunkMeta>, referenced: set<Digest>,
    files: seq<FileRecord>, directories: seq<Path>, paths: set<Path>, filePaths: set<Path>,
    entries: nat, fileCount: nat, directoryCount: nat, chunkReferences: nat,
    originalBytes: nat, storedBytes: nat, logicalBytes: nat)

  const EMPTY := ScanState(map[], {}, [], [], {}, {}, 0, 0, 0, 0, 0, 0, 0)

  // The statistics double as the archive information shown to users.
  datatype ArchiveCatalog = ArchiveCatalog(
    chunks: map<Digest, ChunkMeta>, files: seq<FileRecord>, directories: seq<Path>, info: Footer)

  // --------------------------------------------------------- one record

  predicate ValidChunk(compression: byte, originalSize: nat, payloadSize: nat) {
    && 0 < originalSize <= Chunker.MAX_CHUNK_SIZE
    && if compression == COMPRESSION_STORE then payloadSize == originalSize
       else compression == COMPRESSION_ZSTD && 0 < payloadSize < originalSize
  }

  function ApplyChunk(s: ScanState, hash: Digest, meta: ChunkMeta): Option<ScanState> {
    if !ValidChunk(meta.compression, meta.originalSize, meta.payloadSize) then None
    else if s.storedBytes + meta.payloadSize > U64_MAX then None
    else if hash in s.chunks then None
    else Some(s.(chunks := s.chunks[hash := meta], storedBytes := s.storedBytes + meta.payloadSize))
  }

  predicate NewPath(utf8: seq<byte> -> bool, s: ScanState, path: Path) {
    utf8(path) && ValidPath(path) && path !in s.paths
  }

  function ApplyDirectory(utf8: seq<byte> -> bool, s: ScanState, path: Path): Option<ScanState> {
    if !NewPath(utf8, s, path) then None
    else if s.entries + 1 > U64_MAX || s.directoryCount + 1 > U64_MAX then None
    else Some(s.(paths := s.paths + {path}, directories := s.directories + [path],
                 entries := s.entries + 1, directoryCount := s.directoryCount + 1))
  }

  // Resolving a file's references in order.
  datatype RefTotals = RefTotals(size: nat, logicalBytes: nat, chunkReferences: nat, referenced: set<Digest>)

  function Resolve(s: ScanState, refs: seq<Digest>): Option<RefTotals> {
    if refs == [] then Some(RefTotals(0, s.logicalBytes, s.chunkReferences, s.referenced))
    else
      var before := Resolve(s, refs[..|refs| - 1]);
      if before.None? then None else ResolveOne(s, before.value, refs[|refs| - 1])
  }

  function ResolveOne(s: ScanState, t: RefTotals, hash: Digest): Option<RefTotals> {
    if hash !in s.chunks then None
    else
      var n := s.chunks[hash].originalSize;
      if t.size + n > U64_MAX || t.logicalBytes + n > U64_MAX || t.chunkReferences + 1 > U64_MAX then None
      else Some(RefTotals(t.size + n, t.logicalBytes + n, t.chunkReferences + 1, t.referenced + {hash}))
  }

  function ApplyFile(utf8: seq<byte> -> bool, s: ScanState, f: FileRecord): Option<ScanState> {
    if |f.chunkHashes| > Chunking.MAX_CHUNKS_PER_FILE || !NewPath(utf8, s, f.path) then None
    else
      var resolved := Resolve(s, f.chunkHashes);
      if resolved.None? || resolved.value.size != f.originalSize then None
      else AddFile(s, f, resolved.value)
  }

  function AddFile(s: ScanState, f: FileRecord, t: RefTotals): Option<ScanState> {
    if s.originalBytes + f.originalSize > U64_MAX || s.entries + 1 > U64_MAX || s.fileCount + 1 > U64_MAX then None
    else Some(s.(paths := s.paths + {f.path}, filePaths := s.filePaths + {f.path},
                 referenced := t.referenced, logicalBytes := t.logicalBytes, chunkReferences := t.chunkReferences,
                 originalBytes := s.originalBytes + f.originalSize, files := s.files + [f],
                 entries := s.entries + 1, fileCount := s.fileCount + 1))
  }

  // ---------------------------------------------------------- all records

  function ApplyRecord(utf8: seq<byte> -> bool, s: ScanState, r: Record, at: nat): Option<ScanState> {
    match r
    case Chunk(compression, _, originalSize, payload, hash) =>
      ApplyChunk(s, hash, ChunkMeta(compression, originalSize, |payload|, at + CHUNK_HEADER_SIZE))
    case Directory(_, path) => ApplyDirectory(utf8, s, path)
    case File(path, originalSize, hash, chunkHashes) =>
      ApplyFile(utf8, s, FileRecord(path, originalSize, hash, chunkHashes))
  }

  // The offset in the archive of the record that follows `rs`.
  function OffsetAfter(rs: seq<Record>): nat {
    HEADER_SIZE + |PrintRecords(rs)|
  }

  function Fold(utf8: seq<byte> -> bool, rs: seq<Record>): Option<ScanState> {
    if rs == [] then Some(EMPTY)
    else
      var init := rs[..|rs| - 1];
      var before := Fold(utf8, init);
      if before.None? then None else ApplyRecord(utf8, before.value, rs[|rs| - 1], OffsetAfter(init))
  }

  lemma FoldSnoc(utf8: seq<byte> -> bool, rs: seq<Record>, r: Record)
    ensures Fold(utf8, rs + [r]) ==
      if Fold(utf8, rs).None? then None else ApplyRecord(utf8, Fold(utf8, rs).value, r, OffsetAfter(rs))
  {
    hide ApplyRecord, OffsetAfter;
    assert (rs + [r])[..|rs|] == rs;
  }

  // A rejected prefix is never recovered from.
  lemma {:induction false} FoldPrefix(utf8: seq<byte> -> bool, a: seq<Record>, b: seq<Record>)
    requires Fold(utf8, a + b).Some?
    ensures Fold(utf8, a).Some?
  {
    hide ApplyRecord, OffsetAfter;
    if b == [] {
      assert a + b == a;
    } else {
      assert (a + b)[..|a + b| - 1] == a + b[..|b| - 1];
      FoldPrefix(utf8, a, b[..|b| - 1]);
    }
  }

  // ------------------------------------------------------------ the ending

  // The sum of the original sizes of some chunks, in any order.
  ghost function SizeOf(chunks: map<Digest, ChunkMeta>, keys: set<Digest>): nat
    requires keys <= chunks.Keys
  {
    if keys == {} then 0
    else
      var k :| k in keys;
      chunks[k].originalSize + SizeOf(chunks, keys - {k})
  }

  lemma {:induction false} SizeOfPick(chunks: map<Digest, ChunkMeta>, keys: set<Digest>, k: Digest)
    requires keys <= chunks.Keys && k in keys
    ensures SizeOf(chunks, keys) == chunks[k].originalSize + SizeOf(chunks, keys - {k})
  {
    var first :| first in keys && SizeOf(chunks, keys) == chunks[first].originalSize + SizeOf(chunks, keys - {first});
    if first != k {
      SizeOfPick(chunks, keys - {first}, k);
      SizeOfPick(chunks, keys - {k}, first);
      assert keys - {first} - {k} == keys - {k} - {first};
    }
  }

  ghost function UniqueBytes(chunks: map<Digest, ChunkMeta>): nat {
    SizeOf(chunks, chunks.Keys)
  }

  ghost function Statistics(s: ScanState): Footer
    requires UniqueBytes(s.chunks) <= s.logicalBytes
  {
    Footer(s.entries, s.fileCount, s.directoryCount, |s.chunks|, s.chunkReferences,
           s.originalBytes, s.storedBytes, s.logicalBytes - UniqueBytes(s.chunks))
  }

  ghost function Conclude(s: ScanState, footer: Footer): Option<ArchiveCatalog> {
    if !TreeConsistent(s.paths, s.filePaths) then None
    else if |s.referenced| != |s.chunks| then None
    else if UniqueBytes(s.chunks) > U64_MAX || UniqueBytes(s.chunks) > s.logicalBytes then None
    else if footer != Statistics(s) then None
    else Some(ArchiveCatalog(s.chunks, s.files, s.directories, footer))
  }

  ghost function CheckArchive(utf8: seq<byte> -> bool, a: Archive): Option<ArchiveCatalog> {
    var s := Fold(utf8, a.records);
    if s.None? then None else Conclude(s.value, a.footer)
  }

  // The catalog of an accepted archive; nothing for rejected bytes.
  ghost function Scanned(utf8: seq<byte> -> bool, data: seq<byte>): Option<ArchiveCatalog> {
    var a := ParseArchive(data);
    if a.None? then None else CheckArchive(utf8, a.value)
  }
}
