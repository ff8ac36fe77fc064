// Rebuilding files from an accepted archive: verifying, reading one entry, and
// the decoding both share.
module Reconstruct {
  import opened Bytes
  import opened Sequences
  import opened Format
  import opened Paths
  import opened Primitives
  import opened Catalog
  import opened Soundness
  import opened Sources
  import opened FramedReader
  import Scan

  // ---------------------------------------------------------- specification

  function Decode(p: Primitives, meta: ChunkMeta, payload: seq<byte>): Option<seq<byte>> {
    if meta.compression == COMPRESSION_STORE then Some(payload)
    else if meta.compression == COMPRESSION_ZSTD then p.decompress(payload, meta.originalSize)
    else None
  }

  // The bytes of one chunk, checked against its recorded size and hash.
  function ChunkData(p: Primitives, data: seq<byte>, hash: Digest, meta: ChunkMeta): Option<seq<byte>> {
    if meta.payloadOffset + meta.payloadSize > |data| then None
    else
      var decoded := Decode(p, meta, data[meta.payloadOffset..meta.payloadOffset + meta.payloadSize]);
      if decoded.None? || |decoded.value| != meta.originalSize || p.hash(decoded.value) != hash then None
      else decoded
  }

  // The concatenation of the referenced chunks.
  function ChunksData(p: Primitives, data: seq<byte>, chunks: map<Digest, ChunkMeta>, refs: seq<Digest>): Option<seq<byte>> {
    if refs == [] then Some([])
    else
      var n := |refs| - 1;
      var before := ChunksData(p, data, chunks, refs[..n]);
      if before.None? || refs[n] !in chunks then None
      else
        var chunk := ChunkData(p, data, refs[n], chunks[refs[n]]);
        if chunk.None? then None else Some(before.value + chunk.value)
  }

  // The contents of a file: all its chunks check, and so do its size and hash.
  function FileData(p: Primitives, data: seq<byte>, chunks: map<Digest, ChunkMeta>, f: FileRecord): Option<seq<byte>> {
    var content := ChunksData(p, data, chunks, f.chunkHashes);
    if content.None? || |content.value| != f.originalSize || p.hash(content.value) != f.hash then None
    else content
  }

  // Do all files of the catalog check?
  ghost predicate AllIntact(p: Primitives, data: seq<byte>, c: ArchiveCatalog) {
    forall i :: 0 <= i < |c.files| ==> FileData(p, data, c.chunks, c.files[i]).Some?
  }

  lemma {:induction false} ChunksDataPrefix(p: Primitives, data: seq<byte>, chunks: map<Digest, ChunkMeta>,
                                            refs: seq<Digest>, i: nat)
    requires i <= |refs| && ChunksData(p, data, chunks, refs[..i]).None?
    ensures ChunksData(p, data, chunks, refs).None?
  {
    hide ChunkData;
    if i == |refs| {
      assert refs[..i] == refs;
    } else {
      assert refs[..|refs| - 1][..i] == refs[..i];
      ChunksDataPrefix(p, data, chunks, refs[..|refs| - 1], i);
    }
  }

  // Chunk sizes are checked chunk by chunk, so the size of a file is never
  // what fails, and no sum of sizes overflows.
  lemma {:induction false} ChunksDataSize(p: Primitives, data: seq<byte>, chunks: map<Digest, ChunkMeta>, refs: seq<Digest>)
    requires ChunksData(p, data, chunks, refs).Some?
    ensures forall i :: 0 <= i < |refs| ==> refs[i] in chunks
    ensures |ChunksData(p, data, chunks, refs).value| == RefSize(chunks, refs)
  {
    if refs != [] {
      ChunksDataSize(p, data, chunks, refs[..|refs| - 1]);
    }
  }

  lemma SizeNeverFails(p: Primitives, data: seq<byte>, chunks: map<Digest, ChunkMeta>, f: FileRecord)
    requires FileResolves(chunks, f) && ChunksData(p, data, chunks, f.chunkHashes).Some?
    ensures |ChunksData(p, data, chunks, f.chunkHashes).value| == f.originalSize
  {
    ChunksDataSize(p, data, chunks, f.chunkHashes);
  }

  // ---------------------------------------------------------------- meaning

  // `part` is what the payload of a chunk stands for: the payload itself or
  // what it decompresses to, of the recorded size and hash.
  ghost predicate StandsFor(p: Primitives, data: seq<byte>, h: Digest, meta: ChunkMeta, part: seq<byte>) {
    && meta.payloadOffset + meta.payloadSize <= |data|
    && var payload := data[meta.payloadOffset..meta.payloadOffset + meta.payloadSize];
       && (meta.compression == 0 || meta.compression == 1)
       && (meta.compression == 0 ==> part == payload)
       && (meta.compression == 1 ==> p.decompress(payload, meta.originalSize) == Some(part))
       && |part| == meta.originalSize && p.hash(part) == h
  }

  // The parts are the chunks a file refers to, in order; together they have
  // the size and the hash of its record.
  ghost predicate Rebuilds(p: Primitives, data: seq<byte>, chunks: map<Digest, ChunkMeta>, f: FileRecord,
                           parts: seq<seq<byte>>)
  {
    && |parts| == |f.chunkHashes|
    && (forall k :: 0 <= k < |parts| ==>
          f.chunkHashes[k] in chunks && StandsFor(p, data, f.chunkHashes[k], chunks[f.chunkHashes[k]], parts[k]))
    && |Flatten(parts)| == f.originalSize && p.hash(Flatten(parts)) == f.hash
  }

  lemma ChunkMeaning(p: Primitives, data: seq<byte>, h: Digest, meta: ChunkMeta, part: seq<byte>)
    ensures ChunkData(p, data, h, meta) == Some(part) <==> StandsFor(p, data, h, meta, part)
  {
  }

  lemma {:induction false} PartsOf(p: Primitives, data: seq<byte>, chunks: map<Digest, ChunkMeta>, refs: seq<Digest>)
    returns (parts: seq<seq<byte>>)
    requires ChunksData(p, data, chunks, refs).Some?
    ensures |parts| == |refs| && ChunksData(p, data, chunks, refs) == Some(Flatten(parts))
    ensures forall k :: 0 <= k < |parts| ==> refs[k] in chunks && StandsFor(p, data, refs[k], chunks[refs[k]], parts[k])
  {
    hide ChunkData, StandsFor;
    if refs == [] {
      parts := [];
    } else {
      var n := |refs| - 1;
      var before := PartsOf(p, data, chunks, refs[..n]);
      var last := ChunkData(p, data, refs[n], chunks[refs[n]]).value;
      ChunkMeaning(p, data, refs[n], chunks[refs[n]], last);
      FlattenSnoc(before, last);
      parts := before + [last];
    }
  }

  lemma {:induction false} PartsGive(p: Primitives, data: seq<byte>, chunks: map<Digest, ChunkMeta>, refs: seq<Digest>,
                                     parts: seq<seq<byte>>)
    requires |parts| == |refs|
    requires forall k :: 0 <= k < |parts| ==> refs[k] in chunks && StandsFor(p, data, refs[k], chunks[refs[k]], parts[k])
    ensures ChunksData(p, data, chunks, refs) == Some(Flatten(parts))
  {
    hide ChunkData, StandsFor;
    if refs != [] {
      var n := |refs| - 1;
      PartsGive(p, data, chunks, refs[..n], parts[..n]);
      ChunkMeaning(p, data, refs[n], chunks[refs[n]], parts[n]);
    }
  }

  // A file has these contents exactly when some parts rebuild it to them.
  lemma FileMeaning(p: Primitives, data: seq<byte>, chunks: map<Digest, ChunkMeta>, f: FileRecord, content: seq<byte>)
    ensures FileData(p, data, chunks, f) == Some(content)
      <==> exists parts :: Rebuilds(p, data, chunks, f, parts) && content == Flatten(parts)
  {
    hide ChunksData, StandsFor, Flatten;
    if FileData(p, data, chunks, f) == Some(content) {
      var parts := PartsOf(p, data, chunks, f.chunkHashes);
      assert Rebuilds(p, data, chunks, f, parts);
    }
    if exists parts :: Rebuilds(p, data, chunks, f, parts) && content == Flatten(parts) {
      var parts :| Rebuilds(p, data, chunks, f, parts) && content == Flatten(parts);
      PartsGive(p, data, chunks, f.chunkHashes, parts);
    }
  }

  ghost predicate Rebuildable(p: Primitives, data: seq<byte>, chunks: map<Digest, ChunkMeta>, f: FileRecord) {
    exists parts :: Rebuilds(p, data, chunks, f, parts)
  }

  lemma RebuildableMeaning(p: Primitives, data: seq<byte>, chunks: map<Digest, ChunkMeta>, f: FileRecord)
    ensures FileData(p, data, chunks, f).Some? <==> Rebuildable(p, data, chunks, f)
  {
    hide FileData, Rebuilds;
    if FileData(p, data, chunks, f).Some? {
      FileMeaning(p, data, chunks, f, FileData(p, data, chunks, f).value);
    }
    if Rebuildable(p, data, chunks, f) {
      var parts :| Rebuilds(p, data, chunks, f, parts);
      FileMeaning(p, data, chunks, f, Flatten(parts));
    }
  }

  // All files check exactly when each can be rebuilt.
  lemma IntactMeaning(p: Primitives, data: seq<byte>, c: ArchiveCatalog)
    ensures AllIntact(p, data, c) <==> forall i :: 0 <= i < |c.files| ==> Rebuildable(p, data, c.chunks, c.files[i])
  {
    hide FileData, Rebuildable;
    forall i | 0 <= i < |c.files|
      ensures FileData(p, data, c.chunks, c.files[i]).Some? <==> Rebuildable(p, data, c.chunks, c.files[i])
    {
      RebuildableMeaning(p, data, c.chunks, c.files[i]);
    }
  }

  // ---------------------------------------------------------------- reading

  // Every chunk of the table has a payload to read, of a size that fits, and
  // sums of file sizes stay within 64 bits.
  ghost predicate PayloadsInside(data: seq<byte>, c: ArchiveCatalog) {
    && (forall h :: h in c.chunks ==>
          0 < c.chunks[h].payloadSize && c.chunks[h].payloadOffset + c.chunks[h].payloadSize <= |data|)
    && (forall i :: 0 <= i < |c.files| ==> FileResolves(c.chunks, c.files[i]) && c.files[i].originalSize <= U64_MAX)
  }

  lemma AcceptedReadable(utf8: seq<byte> -> bool, data: seq<byte>)
    requires Scanned(utf8, data).Some?
    ensures PayloadsInside(data, Scanned(utf8, data).value)
  {
    hide FileResolves, ParseArchive, Fold, RangesDisjoint;
    ScanSound(utf8, data);
    FilesFit(utf8, ParseArchive(data).value.records);
  }

  lemma {:induction false} FilesFit(utf8: seq<byte> -> bool, rs: seq<Record>)
    requires Fold(utf8, rs).Some?
    ensures forall i :: 0 <= i < |Fold(utf8, rs).value.files| ==> Fold(utf8, rs).value.files[i].originalSize <= U64_MAX
  {
    hide ValidPath, Resolve;
    if rs != [] {
      FilesFit(utf8, rs[..|rs| - 1]);
    }
  }

  method ReadChunkData(src: Source, p: Primitives, hash: Digest, meta: ChunkMeta) returns (r: Result<seq<byte>>)
    requires src.Valid() && 0 < meta.payloadSize && meta.payloadOffset + meta.payloadSize <= |src.data|
    modifies src.Repr()
    ensures src.Valid()
    ensures r.Ok? ==> ChunkData(p, src.data, hash, meta) == Some(r.value)
    ensures src.authentic ==> (r.Ok? <==> ChunkData(p, src.data, hash, meta).Some?)
  {
    hide Reader.Valid, Reader.Contents, Reader.CanRead;
    var moved := src.Seek(Start(meta.payloadOffset));
    if moved.Err? {
      return Err(BadSeek);
    }
    var payload := src.ReadExact(meta.payloadSize);
    if payload.Err? {
      return Err(payload.error);
    }
    var decoded: seq<byte>;
    if meta.compression == COMPRESSION_STORE {
      decoded := payload.value;
    } else if meta.compression == COMPRESSION_ZSTD {
      var inflated := p.decompress(payload.value, meta.originalSize);
      if inflated.None? {
        return Err(Corrupt);
      }
      decoded := inflated.value;
    } else {
      return Err(Unsupported);
    }
    if |decoded| != meta.originalSize {
      return Err(Corrupt);
    }
    if p.hash(decoded) != hash {
      return Err(Corrupt);
    }
    r := Ok(decoded);
  }

  // What one more chunk adds, or that its failure is the file's.
  lemma NextChunk(p: Primitives, data: seq<byte>, chunks: map<Digest, ChunkMeta>, refs: seq<Digest>, i: nat)
    requires i < |refs| && refs[i] in chunks && ChunksData(p, data, chunks, refs[..i]).Some?
    ensures var chunk := ChunkData(p, data, refs[i], chunks[refs[i]]);
      if chunk.Some? then
        ChunksData(p, data, chunks, refs[..i + 1]) == Some(ChunksData(p, data, chunks, refs[..i]).value + chunk.value)
      else ChunksData(p, data, chunks, refs).None?
  {
    hide ChunkData;
    assert refs[..i + 1][..i] == refs[..i];
    if ChunkData(p, data, refs[i], chunks[refs[i]]).None? {
      ChunksDataPrefix(p, data, chunks, refs, i + 1);
    }
  }

  lemma {:induction false} PrefixWithin(chunks: map<Digest, ChunkMeta>, refs: seq<Digest>, i: nat)
    requires i <= |refs| && forall j :: 0 <= j < |refs| ==> refs[j] in chunks
    ensures RefSize(chunks, refs[..i]) <= RefSize(chunks, refs)
  {
    if i == |refs| {
      assert refs[..i] == refs;
    } else {
      assert refs[..|refs| - 1][..i] == refs[..i];
      PrefixWithin(chunks, refs[..|refs| - 1], i);
    }
  }

  lemma SizeWithin(p: Primitives, data: seq<byte>, chunks: map<Digest, ChunkMeta>, f: FileRecord, i: nat)
    requires FileResolves(chunks, f) && i <= |f.chunkHashes|
    requires ChunksData(p, data, chunks, f.chunkHashes[..i]).Some?
    ensures |ChunksData(p, data, chunks, f.chunkHashes[..i]).value| <= f.originalSize
  {
    ChunksDataSize(p, data, chunks, f.chunkHashes[..i]);
    PrefixWithin(chunks, f.chunkHashes, i);
  }

  // Succeeds exactly when the file checks. `hashed` is what the hasher has
  // been fed. Neither a missing chunk nor an overflow nor a wrong size occurs.
  method VerifyFileRecord(src: Source, p: Primitives, c: ArchiveCatalog, f: FileRecord) returns (r: Result<()>)
    requires src.Valid() && PayloadsInside(src.data, c)
    requires FileResolves(c.chunks, f) && f.originalSize <= U64_MAX
    modifies src.Repr()
    ensures src.Valid()
    ensures r.Ok? ==> FileData(p, src.data, c.chunks, f).Some? && Rebuildable(p, src.data, c.chunks, f)
    ensures src.authentic ==> (r.Ok? <==> FileData(p, src.data, c.chunks, f).Some?)
  {
    hide Reader.Valid, Reader.Contents, Reader.CanRead;
    hide ChunkData, ChunksData, RefSize, Rebuildable;
    RebuildableMeaning(p, src.data, c.chunks, f);
    var hashed: seq<byte> := [];
    var size: nat := 0;
    var i := 0;
    NoChunks(p, src.data, c.chunks, f.chunkHashes);
    while i < |f.chunkHashes|
      invariant i <= |f.chunkHashes| && src.Valid() && size == |hashed|
      invariant ChunksData(p, src.data, c.chunks, f.chunkHashes[..i]) == Some(hashed)
    {
      var hash := f.chunkHashes[i];
      if hash !in c.chunks {
        return Err(Missing);
      }
      NextChunk(p, src.data, c.chunks, f.chunkHashes, i);
      var chunk := ReadChunkData(src, p, hash, c.chunks[hash]);
      if chunk.Err? {
        return Err(chunk.error);
      }
      SizeWithin(p, src.data, c.chunks, f, i + 1);
      hashed := hashed + chunk.value;
      var next := CheckedAdd(size, |chunk.value|);
      if next.None? {
        return Err(Overflow);
      }
      size := next.value;
      i := i + 1;
    }
    assert f.chunkHashes[..i] == f.chunkHashes;
    if size != f.originalSize {
      return Err(Corrupt);
    }
    if p.hash(hashed) != f.hash {
      return Err(Corrupt);
    }
    r := Ok(());
  }

  lemma NoChunks(p: Primitives, data: seq<byte>, chunks: map<Digest, ChunkMeta>, refs: seq<Digest>)
    ensures ChunksData(p, data, chunks, refs[..0]) == Some([])
  {
  }

  // Accepts exactly the archives that scan and whose files all check.
  method VerifyReader(src: Source, p: Primitives) returns (r: Result<Footer>)
    requires src.Valid()
    modifies src.Repr()
    ensures src.Valid()
    ensures r.Ok? ==>
      && Scanned(p.utf8, src.data).Some? && r.value == Scanned(p.utf8, src.data).value.info
      && AllIntact(p, src.data, Scanned(p.utf8, src.data).value)
    ensures r.Ok? ==>
      var c := Scanned(p.utf8, src.data).value;
      forall i :: 0 <= i < |c.files| ==> Rebuildable(p, src.data, c.chunks, c.files[i])
    ensures src.authentic ==> (r.Ok? <==>
      Scanned(p.utf8, src.data).Some? && AllIntact(p, src.data, Scanned(p.utf8, src.data).value))
  {
    hide Reader.Valid, Reader.Contents, Reader.CanRead;
    hide Scanned, FileData, FileResolves, Rebuildable;
    var scanned := Scan.ScanArchive(src, p.utf8);
    if scanned.Err? {
      return Err(scanned.error);
    }
    var c := scanned.value;
    AcceptedReadable(p.utf8, src.data);
    var i := 0;
    while i < |c.files|
      invariant i <= |c.files| && src.Valid()
      invariant forall j :: 0 <= j < i ==> FileData(p, src.data, c.chunks, c.files[j]).Some?
    {
      var verified := VerifyFileRecord(src, p, c, c.files[i]);
      if verified.Err? {
        return Err(verified.error);
      }
      i := i + 1;
    }
    IntactMeaning(p, src.data, c);
    r := Ok(c.info);
  }

  // The position of the first file listed under a path.
  function FindFile(files: seq<FileRecord>, path: Path): (i: nat)
    ensures i <= |files|
    ensures i < |files| ==> files[i].path == path
    ensures forall j :: 0 <= j < i ==> files[j].path != path
  {
    if files == [] then 0
    else if files[0].path == path then 0
    else 1 + FindFile(files[1..], path)
  }

  // The contents of one file, if the path is valid, listed, and checks.
  ghost function Entry(p: Primitives, data: seq<byte>, path: Path): Option<seq<byte>> {
    var c := Scanned(p.utf8, data);
    if !ValidPath(path) || c.None? || FindFile(c.value.files, path) == |c.value.files| then None
    else FileData(p, data, c.value.chunks, c.value.files[FindFile(c.value.files, path)])
  }

  method ReadEntryReader(src: Source, p: Primitives, path: Path) returns (r: Result<seq<byte>>)
    requires src.Valid()
    modifies src.Repr()
    ensures src.Valid()
    ensures r.Ok? ==> Entry(p, src.data, path) == Some(r.value)
    ensures r.Ok? ==> Scanned(p.utf8, src.data).Some? && EntryIs(p, src.data, Scanned(p.utf8, src.data).value, path, r.value)
    ensures src.authentic ==> (r.Ok? <==> Entry(p, src.data, path).Some?)
  {
    hide Reader.Valid, Reader.Contents, Reader.CanRead;
    hide Scanned, FileData, FileResolves, ValidPath, EntryIs;
    var valid := ValidateArchivePath(path);
    if valid.Err? {
      return Err(valid.error);
    }
    var scanned := Scan.ScanArchive(src, p.utf8);
    if scanned.Err? {
      return Err(scanned.error);
    }
    var c := scanned.value;
    AcceptedReadable(p.utf8, src.data);
    var k := FindFile(c.files, path);
    if k == |c.files| {
      return Err(Missing);
    }
    r := CollectFile(src, p, c, c.files[k]);
    if r.Ok? {
      EntryMeaning(p, src.data, path, r.value);
    }
  }

  // The body of the read: collects the chunks of the file found.
  method CollectFile(src: Source, p: Primitives, c: ArchiveCatalog, f: FileRecord) returns (r: Result<seq<byte>>)
    requires src.Valid() && PayloadsInside(src.data, c)
    requires FileResolves(c.chunks, f)
    modifies src.Repr()
    ensures src.Valid()
    ensures r.Ok? ==> FileData(p, src.data, c.chunks, f) == Some(r.value)
    ensures r.Ok? ==> |r.value| == f.originalSize && p.hash(r.value) == f.hash
    ensures src.authentic ==> (r.Ok? <==> FileData(p, src.data, c.chunks, f).Some?)
  {
    hide Reader.Valid, Reader.Contents, Reader.CanRead;
    hide ChunkData, ChunksData, RefSize;
    var content: seq<byte> := [];
    var i := 0;
    NoChunks(p, src.data, c.chunks, f.chunkHashes);
    while i < |f.chunkHashes|
      invariant i <= |f.chunkHashes| && src.Valid()
      invariant ChunksData(p, src.data, c.chunks, f.chunkHashes[..i]) == Some(content)
    {
      var hash := f.chunkHashes[i];
      if hash !in c.chunks {
        return Err(Missing);
      }
      NextChunk(p, src.data, c.chunks, f.chunkHashes, i);
      var chunk := ReadChunkData(src, p, hash, c.chunks[hash]);
      if chunk.Err? {
        return Err(chunk.error);
      }
      content := content + chunk.value;
      i := i + 1;
    }
    assert f.chunkHashes[..i] == f.chunkHashes;
    if |content| != f.originalSize || p.hash(content) != f.hash {
      return Err(Corrupt);
    }
    r := Ok(content);
  }

  // Verification succeeds exactly when every listed file can be read back.
  lemma VerifyMeansReadable(p: Primitives, data: seq<byte>)
    requires Scanned(p.utf8, data).Some?
    ensures var c := Scanned(p.utf8, data).value;
      AllIntact(p, data, c) <==> forall i :: 0 <= i < |c.files| ==> Entry(p, data, c.files[i].path).Some?
  {
    hide FileData, FileResolves;
    PathsSound(p.utf8, data);
    var c := Scanned(p.utf8, data).value;
    forall i | 0 <= i < |c.files|
      ensures Entry(p, data, c.files[i].path) == FileData(p, data, c.chunks, c.files[i])
    {
      EntryOfFile(p, data, i);
    }
  }

  lemma EntryOfFile(p: Primitives, data: seq<byte>, i: nat)
    requires Scanned(p.utf8, data).Some? && i < |Scanned(p.utf8, data).value.files|
    ensures var c := Scanned(p.utf8, data).value;
      Entry(p, data, c.files[i].path) == FileData(p, data, c.chunks, c.files[i])
  {
    hide Scanned, FileData, ValidPath, ProperlyBelow;
    PathsSound(p.utf8, data);
    var c := Scanned(p.utf8, data).value;
    var k := FindFile(c.files, c.files[i].path);
    assert IsEntry(c, c.files[i].path);
    assert k <= i;
    assert k == i;
  }

  // Some file listed under the path is rebuilt to these contents.
  ghost predicate EntryIs(p: Primitives, data: seq<byte>, c: ArchiveCatalog, path: Path, content: seq<byte>) {
    exists i: nat, parts: seq<seq<byte>> :: RebuiltAt(p, data, c, path, content, i, parts)
  }

  ghost predicate RebuiltAt(p: Primitives, data: seq<byte>, c: ArchiveCatalog, path: Path, content: seq<byte>,
                            i: nat, parts: seq<seq<byte>>)
  {
    && i < |c.files| && c.files[i].path == path
    && Rebuilds(p, data, c.chunks, c.files[i], parts) && content == Flatten(parts)
  }

  // Reading a path answers these contents exactly when the archive scans, a
  // file is listed under the path and it is rebuilt to them. A path that no
  // file is listed under answers nothing.
  lemma EntryMeaning(p: Primitives, data: seq<byte>, path: Path, content: seq<byte>)
    ensures Entry(p, data, path) == Some(content)
      <==> Scanned(p.utf8, data).Some? && EntryIs(p, data, Scanned(p.utf8, data).value, path, content)
  {
    hide Scanned, FileData, Rebuilds, ValidPath, Flatten;
    if Scanned(p.utf8, data).Some? {
      var c := Scanned(p.utf8, data).value;
      var k := FindFile(c.files, path);
      if k < |c.files| {
        FileMeaning(p, data, c.chunks, c.files[k], content);
      }
      if Entry(p, data, path) == Some(content) {
        var parts :| Rebuilds(p, data, c.chunks, c.files[k], parts) && content == Flatten(parts);
        assert RebuiltAt(p, data, c, path, content, k, parts);
      }
      if EntryIs(p, data, c, path, content) {
        var i: nat, parts: seq<seq<byte>> :| RebuiltAt(p, data, c, path, content, i, parts);
        FileMeaning(p, data, c.chunks, c.files[i], content);
        EntryOfFile(p, data, i);
      }
    }
  }
}
