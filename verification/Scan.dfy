// The single pass over an archive that rebuilds its catalog, from any source.
module Scan {
  import opened Bytes
  import opened Format
  import opened FormatCodec
  import opened FormatIO
  import opened Paths
  import opened Catalog
  import opened Sources
  import Chunking
  import opened FramedReader

  // ------------------------------------------------------- reading a record

  // After a chunk marker at p. A seek over the payload may leave a plain file
  // or an RGXE stream past its end; RGXK refuses it.
  method ScanChunk(src: Source, s: ScanState, p: nat) returns (r: Result<ScanState>)
    requires src.Valid() && src.position == p + 4 && src.position <= |src.data|
    modifies src.Repr()
    ensures src.Valid()
    ensures r.Ok? ==> if src.position <= |src.data| then
        && ChunkAt(src.data, p).Some? && src.position == ChunkAt(src.data, p).value.1
        && var rec := ChunkAt(src.data, p).value.0;
           ApplyChunk(s, rec.hash, ChunkMeta(rec.compression, rec.originalSize, |rec.payload|, p + CHUNK_HEADER_SIZE))
             == Some(r.value)
      else ChunkAt(src.data, p).None?
    ensures src.authentic && r.Err? && ChunkAt(src.data, p).Some? ==>
      var rec := ChunkAt(src.data, p).value.0;
      ApplyChunk(s, rec.hash, ChunkMeta(rec.compression, rec.originalSize, |rec.payload|, p + CHUNK_HEADER_SIZE)).None?
  {
    hide Reader.Valid, Reader.Contents, Reader.CanRead;
    hide U64At, ApplyChunk;
    var read := ReadChunkHeaderAfterMagic(src, p);
    if read.Err? {
      return Err(read.error);
    }
    var header := read.value;
    ghost var meta := ChunkMeta(header.compression, header.originalSize, header.payloadSize, p + CHUNK_HEADER_SIZE);
    RejectedChunk(s, header.hash, meta);
    if !ValidChunk(header.compression, header.originalSize, header.payloadSize) {
      return Err(BadChunk);
    }
    var payloadOffset := src.StreamPosition();
    if header.payloadSize > I64_MAX {
      return Err(BadChunk);
    }
    var moved := src.Seek(SeekFrom.Current(header.payloadSize));
    if moved.Err? {
      return Err(moved.error);
    }
    r := RecordChunk(s, header, payloadOffset);
  }

  lemma RejectedChunk(s: ScanState, hash: Digest, meta: ChunkMeta)
    ensures !ValidChunk(meta.compression, meta.originalSize, meta.payloadSize) ==> ApplyChunk(s, hash, meta).None?
  {
  }

  // The rest of a chunk record, once its header is valid.
  method RecordChunk(s: ScanState, header: ChunkHeader, payloadOffset: nat) returns (r: Result<ScanState>)
    requires ValidChunk(header.compression, header.originalSize, header.payloadSize)
    ensures var meta := ChunkMeta(header.compression, header.originalSize, header.payloadSize, payloadOffset);
      && (r.Ok? <==> ApplyChunk(s, header.hash, meta).Some?)
      && (r.Ok? ==> ApplyChunk(s, header.hash, meta) == Some(r.value))
  {
    var stored := CheckedAdd(s.storedBytes, header.payloadSize);
    if stored.None? {
      return Err(Overflow);
    }
    if header.hash in s.chunks {
      return Err(Duplicate);
    }
    var meta := ChunkMeta(header.compression, header.originalSize, header.payloadSize, payloadOffset);
    r := Ok(s.(chunks := s.chunks[header.hash := meta], storedBytes := stored.value));
  }

  method ReadPath(src: Source, utf8: seq<byte> -> bool, pathLen: nat) returns (r: Result<Path>)
    requires src.Valid()
    modifies src.Repr()
    ensures src.Valid()
    ensures r.Ok? ==>
      && 1 <= pathLen <= MAX_PATH_BYTES && utf8(r.value)
      && old(src.position) + pathLen <= |src.data|
      && r.value == src.data[old(src.position)..old(src.position) + pathLen]
      && src.position == old(src.position) + pathLen
    ensures src.authentic && r.Err? ==>
      || !(1 <= pathLen <= MAX_PATH_BYTES)
      || old(src.position) + pathLen > |src.data|
      || !utf8(src.data[old(src.position)..old(src.position) + pathLen])
  {
    hide Reader.Valid, Reader.Contents, Reader.CanRead;
    if pathLen == 0 || pathLen > MAX_PATH_BYTES {
      return Err(BadPath);
    }
    var bytes := src.ReadExact(pathLen);
    if bytes.Err? {
      return Err(bytes.error);
    }
    if !utf8(bytes.value) {
      return Err(BadPath);
    }
    r := bytes;
  }

  method ScanDirectory(src: Source, utf8: seq<byte> -> bool, s: ScanState, p: nat) returns (r: Result<ScanState>)
    requires src.Valid() && src.position == p + 4 && src.position <= |src.data|
    modifies src.Repr()
    ensures src.Valid()
    ensures r.Ok? ==>
      && DirectoryAt(src.data, p).Some? && src.position == DirectoryAt(src.data, p).value.1
      && ApplyDirectory(utf8, s, DirectoryAt(src.data, p).value.0.path) == Some(r.value)
    ensures src.authentic && r.Err? && DirectoryAt(src.data, p).Some? ==>
      ApplyDirectory(utf8, s, DirectoryAt(src.data, p).value.0.path).None?
  {
    hide Reader.Valid, Reader.Contents, Reader.CanRead;
    hide U32At, ValidPath, Parts;
    var header := ReadDirectoryHeaderAfterMagic(src, p);
    if header.Err? {
      return Err(header.error);
    }
    var path := ReadPath(src, utf8, header.value);
    if path.Err? {
      return Err(path.error);
    }
    var valid := ValidateArchivePath(path.value);
    if valid.Err? {
      return Err(valid.error);
    }
    if path.value in s.paths {
      return Err(Duplicate);
    }
    var entries, directoryCount := CheckedAdd(s.entries, 1), CheckedAdd(s.directoryCount, 1);
    if entries.None? || directoryCount.None? {
      return Err(Overflow);
    }
    r := Ok(s.(paths := s.paths + {path.value}, directories := s.directories + [path.value],
               entries := entries.value, directoryCount := directoryCount.value));
  }

  // Reads `count` references and resolves each against the chunks seen so far.
  method ScanReferences(src: Source, s: ScanState, count: nat) returns (r: Result<(RefTotals, seq<Digest>)>)
    requires src.Valid() && src.position <= |src.data|
    modifies src.Repr()
    ensures src.Valid()
    ensures r.Ok? ==>
      && old(src.position) + 32 * count <= |src.data| && src.position == old(src.position) + 32 * count
      && r.value.1 == DigestsAt(src.data, old(src.position), count)
      && Resolve(s, r.value.1) == Some(r.value.0)
    ensures src.authentic && r.Err? && old(src.position) + 32 * count <= |src.data| ==>
      Resolve(s, DigestsAt(src.data, old(src.position), count)).None?
  {
    hide Reader.Valid, Reader.Contents, Reader.CanRead;
    hide ResolveOne, Resolve, DigestsAt;
    var refs: seq<Digest> := [];
    var t := RefTotals(0, s.logicalBytes, s.chunkReferences, s.referenced);
    ghost var data, start := src.data, src.position;
    NoReferences(s, data, start);
    while |refs| < count
      invariant src.Valid() && |refs| <= count
      invariant start + 32 * |refs| <= |data| && src.position == start + 32 * |refs|
      invariant refs == DigestsAt(data, start, |refs|)
      invariant Resolve(s, refs) == Some(t)
    {
      var hash := src.ReadExact(32);
      if hash.Err? {
        return Err(hash.error);
      }
      NextReference(s, t, data, start, |refs|, count);
      var one := CountReference(s, t, hash.value);
      if one.Err? {
        return Err(one.error);
      }
      t := one.value;
      refs := refs + [hash.value];
    }
    r := Ok((t, refs));
  }

  lemma NoReferences(s: ScanState, data: seq<byte>, start: nat)
    requires start <= |data|
    ensures DigestsAt(data, start, 0) == []
    ensures Resolve(s, []) == Some(RefTotals(0, s.logicalBytes, s.chunkReferences, s.referenced))
  {
  }

  lemma NextReference(s: ScanState, t: RefTotals, data: seq<byte>, start: nat, i: nat, count: nat)
    requires start + 32 * i + 32 <= |data| && i < count
    requires Resolve(s, DigestsAt(data, start, i)) == Some(t)
    ensures var hash := data[start + 32 * i..start + 32 * i + 32];
      && DigestsAt(data, start, i + 1) == DigestsAt(data, start, i) + [hash]
      && Resolve(s, DigestsAt(data, start, i + 1)) == ResolveOne(s, t, hash)
      && (start + 32 * count <= |data| && ResolveOne(s, t, hash).None? ==>
            Resolve(s, DigestsAt(data, start, count)).None?)
  {
    hide ResolveOne;
    var hash := data[start + 32 * i..start + 32 * i + 32];
    var refs := DigestsAt(data, start, i);
    var more := DigestsAt(data, start, i + 1);
    assert more == refs + [hash];
    assert more[..i] == refs;
    if start + 32 * count <= |data| && ResolveOne(s, t, hash).None? {
      DigestsPrefix(data, start, i + 1, count);
      ResolvePrefix(s, DigestsAt(data, start, count), i + 1);
    }
  }

  method CountReference(s: ScanState, t: RefTotals, hash: Digest) returns (r: Result<RefTotals>)
    ensures r.Ok? <==> ResolveOne(s, t, hash).Some?
    ensures r.Ok? ==> Some(r.value) == ResolveOne(s, t, hash)
  {
    if hash !in s.chunks {
      return Err(Missing);
    }
    var size := CheckedAdd(t.size, s.chunks[hash].originalSize);
    if size.None? {
      return Err(Overflow);
    }
    var logicalBytes := CheckedAdd(t.logicalBytes, s.chunks[hash].originalSize);
    if logicalBytes.None? {
      return Err(Overflow);
    }
    var chunkReferences := CheckedAdd(t.chunkReferences, 1);
    if chunkReferences.None? {
      return Err(Overflow);
    }
    r := Ok(RefTotals(size.value, logicalBytes.value, chunkReferences.value, t.referenced + {hash}));
  }

  lemma DigestsPrefix(data: seq<byte>, p: nat, i: nat, count: nat)
    requires i <= count && p + 32 * count <= |data|
    ensures DigestsAt(data, p, count)[..i] == DigestsAt(data, p, i)
  {
  }

  lemma {:induction false} ResolvePrefix(s: ScanState, refs: seq<Digest>, i: nat)
    requires i <= |refs| && Resolve(s, refs[..i]).None?
    ensures Resolve(s, refs).None?
  {
    hide ResolveOne;
    if i == |refs| {
      assert refs[..i] == refs;
    } else {
      var init := refs[..|refs| - 1];
      assert init[..i] == refs[..i];
      ResolvePrefix(s, init, i);
    }
  }

  // The rest of a file record, once its references are resolved.
  method RecordFile(s: ScanState, f: FileRecord, t: RefTotals) returns (r: Result<ScanState>)
    ensures r.Ok? <==> t.size == f.originalSize && AddFile(s, f, t).Some?
    ensures r.Ok? ==> Some(r.value) == AddFile(s, f, t)
  {
    if t.size != f.originalSize {
      return Err(BadRecord);
    }
    var originalBytes := CheckedAdd(s.originalBytes, f.originalSize);
    if originalBytes.None? {
      return Err(Overflow);
    }
    var entries, fileCount := CheckedAdd(s.entries, 1), CheckedAdd(s.fileCount, 1);
    if entries.None? || fileCount.None? {
      return Err(Overflow);
    }
    r := Ok(s.(paths := s.paths + {f.path}, filePaths := s.filePaths + {f.path},
               referenced := t.referenced, logicalBytes := t.logicalBytes, chunkReferences := t.chunkReferences,
               originalBytes := originalBytes.value, files := s.files + [f],
               entries := entries.value, fileCount := fileCount.value));
  }

  function FileRecordAt(rec: Record): FileRecord
    requires rec.File?
  {
    FileRecord(rec.path, rec.originalSize, rec.hash, rec.chunkHashes)
  }

  method ScanFile(src: Source, utf8: seq<byte> -> bool, s: ScanState, p: nat) returns (r: Result<ScanState>)
    requires src.Valid() && src.position == p + 4 && src.position <= |src.data|
    modifies src.Repr()
    ensures src.Valid()
    ensures r.Ok? ==>
      && FileAt(src.data, p).Some? && src.position == FileAt(src.data, p).value.1
      && ApplyFile(utf8, s, FileRecordAt(FileAt(src.data, p).value.0)) == Some(r.value)
    ensures src.authentic && r.Err? && FileAt(src.data, p).Some? ==>
      ApplyFile(utf8, s, FileRecordAt(FileAt(src.data, p).value.0)).None?
  {
    hide Reader.Valid, Reader.Contents, Reader.CanRead;
    hide U32At, U64At, ValidPath, Parts, Resolve, DigestsAt, AddFile;
    var read := ReadFileHeaderAfterMagic(src, p);
    if read.Err? {
      return Err(read.error);
    }
    var header := read.value;
    if header.chunkCount > Chunking.MAX_CHUNKS_PER_FILE {
      return Err(BadRecord);
    }
    var path := ReadPath(src, utf8, header.pathLen);
    if path.Err? {
      return Err(path.error);
    }
    var valid := ValidateArchivePath(path.value);
    if valid.Err? {
      return Err(valid.error);
    }
    if path.value in s.paths {
      return Err(Duplicate);
    }
    var resolved := ScanReferences(src, s, header.chunkCount);
    if resolved.Err? {
      return Err(resolved.error);
    }
    var (t, refs) := resolved.value;
    r := RecordFile(s, FileRecord(path.value, header.originalSize, header.hash, refs), t);
  }

  // ------------------------------------------------------------ whole pass

  // Any record marker: dispatches on the tag already read at p.
  method ScanRecord(src: Source, utf8: seq<byte> -> bool, s: ScanState, tag: seq<byte>, p: nat)
    returns (r: Result<ScanState>)
    requires src.Valid() && src.position == p + 4 <= |src.data| && tag == src.data[p..p + 4]
    modifies src.Repr()
    ensures src.Valid()
    ensures r.Ok? ==> if src.position <= |src.data| then
        && RecordAt(src.data, p).Some? && src.position == RecordAt(src.data, p).value.1
        && ApplyRecord(utf8, s, RecordAt(src.data, p).value.0, p) == Some(r.value)
      else RecordAt(src.data, p).None?
    ensures src.authentic && r.Err? && RecordAt(src.data, p).Some? ==>
      ApplyRecord(utf8, s, RecordAt(src.data, p).value.0, p).None?
  {
    hide Reader.Valid, Reader.Contents, Reader.CanRead;
    hide ApplyChunk, ApplyDirectory, ApplyFile, U32At, U64At, DigestsAt;
    if tag == CHUNK_MAGIC {
      r := ScanChunk(src, s, p);
    } else if tag == DIRECTORY_MAGIC {
      r := ScanDirectory(src, utf8, s, p);
    } else if tag == FILE_MAGIC {
      r := ScanFile(src, utf8, s, p);
    } else {
      r := Err(BadRecord);
    }
  }

  // The records from p on, with those already read in front.
  function Behind(done: seq<Record>, rest: Option<(seq<Record>, Footer, nat)>): Option<(seq<Record>, Footer, nat)> {
    if rest.None? then None else Some((done + rest.value.0, rest.value.1, rest.value.2))
  }

  lemma NextRecord(data: seq<byte>, p: nat, done: seq<Record>)
    requires p + 4 <= |data| && data[p..p + 4] != FOOTER_MAGIC
    requires p == OffsetAfter(done)
    requires RecordAt(data, p).Some?
    ensures var (r, q) := RecordAt(data, p).value;
      && Behind(done, RecordsAt(data, p)) == Behind(done + [r], RecordsAt(data, q))
      && q == OffsetAfter(done + [r])
  {
    hide RecordAt, PrintRecord, PrintRecords;
    var (r, q) := RecordAt(data, p).value;
    RecordCodec(data, p, r, q);
    PrintRecordsSnoc(done, r);
    if RecordsAt(data, q).Some? {
      assert done + ([r] + RecordsAt(data, q).value.0) == (done + [r]) + RecordsAt(data, q).value.0;
    }
  }

  // Compares what was found with the footer.
  method CompareFooter(s: ScanState, footer: Footer) returns (r: Result<ArchiveCatalog>)
    ensures r.Ok? <==> Conclude(s, footer).Some?
    ensures r.Ok? ==> Conclude(s, footer) == Some(r.value)
  {
    hide TreeConsistent;
    var tree := ValidatePathTree(s.paths, s.filePaths);
    if tree.Err? {
      return Err(tree.error);
    }
    if |s.referenced| != |s.chunks| {
      return Err(Missing);
    }
    var unique := SumUnique(s.chunks);
    if unique.Err? {
      return Err(unique.error);
    }
    if unique.value > s.logicalBytes {
      return Err(BadStatistics);
    }
    var expected := Footer(s.entries, s.fileCount, s.directoryCount, |s.chunks|, s.chunkReferences,
                           s.originalBytes, s.storedBytes, s.logicalBytes - unique.value);
    if footer != expected {
      return Err(BadStatistics);
    }
    r := Ok(ArchiveCatalog(s.chunks, s.files, s.directories, footer));
  }

  // Adds up the chunk sizes in whatever order the table yields them.
  method SumUnique(chunks: map<Digest, ChunkMeta>) returns (r: Result<nat>)
    ensures r.Ok? <==> UniqueBytes(chunks) <= U64_MAX
    ensures r.Ok? ==> r.value == UniqueBytes(chunks)
  {
    hide SizeOf;
    var remaining := chunks.Keys;
    var sum: nat := 0;
    while remaining != {}
      invariant remaining <= chunks.Keys
      invariant sum + SizeOf(chunks, remaining) == UniqueBytes(chunks) && sum <= U64_MAX
      decreases remaining
    {
      var k :| k in remaining;
      SizeOfPick(chunks, remaining, k);
      var next := CheckedAdd(sum, chunks[k].originalSize);
      if next.None? {
        return Err(Overflow);
      }
      sum := next.value;
      remaining := remaining - {k};
    }
    NothingLeft(chunks);
    r := Ok(sum);
  }

  lemma NothingLeft(chunks: map<Digest, ChunkMeta>)
    ensures SizeOf(chunks, {}) == 0
  {
  }

  // Where a scan stands at offset p, having read the records `done`.
  ghost predicate Progress(utf8: seq<byte> -> bool, data: seq<byte>, done: seq<Record>, s: ScanState, p: nat) {
    && HeaderAccepted(data)
    && if p <= |data| then
         && p == OffsetAfter(done) && Fold(utf8, done) == Some(s)
         && RecordsAt(data, HEADER_SIZE) == Behind(done, RecordsAt(data, p))
       else RecordsAt(data, HEADER_SIZE).None?
  }

  ghost function Extended(done: seq<Record>, data: seq<byte>, p: nat): seq<Record>
    requires p + 4 <= |data|
  {
    if RecordAt(data, p).Some? then done + [RecordAt(data, p).value.0] else done
  }

  lemma Advanced(utf8: seq<byte> -> bool, data: seq<byte>, done: seq<Record>, s: ScanState, p: nat,
                 s': ScanState, q: nat)
    requires Progress(utf8, data, done, s, p) && p + 4 <= |data| && data[p..p + 4] != FOOTER_MAGIC
    requires if q <= |data| then
        && RecordAt(data, p).Some? && q == RecordAt(data, p).value.1
        && ApplyRecord(utf8, s, RecordAt(data, p).value.0, p) == Some(s')
      else RecordAt(data, p).None?
    ensures Progress(utf8, data, Extended(done, data, p), s', q)
  {
    hide ApplyRecord, RecordAt, OffsetAfter, Fold;
    if RecordAt(data, p).Some? {
      NextRecord(data, p, done);
      FoldSnoc(utf8, done, RecordAt(data, p).value.0);
    }
  }

  // Nothing can be accepted once the archive ends without a footer.
  lemma EndsEarly(utf8: seq<byte> -> bool, data: seq<byte>, done: seq<Record>, s: ScanState, p: nat)
    requires Progress(utf8, data, done, s, p) && p + 4 > |data|
    ensures Scanned(utf8, data).None?
  {
    hide Fold, OffsetAfter, Conclude;
  }

  // A record that is not accepted after `done` dooms the whole archive.
  lemma Doomed(utf8: seq<byte> -> bool, data: seq<byte>, p: nat, done: seq<Record>, s: ScanState)
    requires Progress(utf8, data, done, s, p) && p + 4 <= |data| && data[p..p + 4] != FOOTER_MAGIC
    ensures RecordAt(data, p).None? || ApplyRecord(utf8, s, RecordAt(data, p).value.0, p).None?
      ==> Scanned(utf8, data).None?
  {
    hide RecordAt, ApplyRecord, Conclude, OffsetAfter;
    if RecordAt(data, p).Some? && RecordsAt(data, p).Some? && ApplyRecord(utf8, s, RecordAt(data, p).value.0, p).None? {
      var (r, q) := RecordAt(data, p).value;
      var tail := RecordsAt(data, q).value.0;
      FoldSnoc(utf8, done, r);
      var all := done + ([r] + tail);
      assert all == (done + [r]) + tail;
      if Fold(utf8, all).Some? {
        FoldPrefix(utf8, done + [r], tail);
      }
    }
  }

  // After the footer marker at p.
  method FinishScan(src: Source, utf8: seq<byte> -> bool, s: ScanState, ghost p: nat, ghost done: seq<Record>)
    returns (r: Result<ArchiveCatalog>)
    requires src.Valid() && src.position == p + 4 <= |src.data| && src.data[p..p + 4] == FOOTER_MAGIC
    requires Progress(utf8, src.data, done, s, p)
    modifies src.Repr()
    ensures src.Valid()
    ensures r.Ok? ==> Scanned(utf8, src.data) == Some(r.value)
    ensures src.authentic ==> (r.Ok? <==> Scanned(utf8, src.data).Some?)
  {
    hide Reader.Valid, Reader.Contents, Reader.CanRead;
    hide OffsetAfter, Conclude, FooterAt, Fold;
    assert done + [] == done;
    var footer := ReadFooterAfterMagic(src, p);
    if footer.Err? {
      return Err(footer.error);
    }
    var trailing := src.Read(1);
    if trailing.Err? {
      return Err(trailing.error);
    }
    if |trailing.value| != 0 {
      return Err(Trailing);
    }
    r := CompareFooter(s, footer.value);
  }

  // The scan accepts exactly the archives the catalog checks accept, whatever
  // the source. On a source with bad frames it may fail instead, but never
  // accepts anything else.
  method ScanArchive(src: Source, utf8: seq<byte> -> bool) returns (r: Result<ArchiveCatalog>)
    requires src.Valid()
    modifies src.Repr()
    ensures src.Valid()
    ensures r.Ok? ==> Scanned(utf8, src.data) == Some(r.value)
    ensures src.authentic ==> (r.Ok? <==> Scanned(utf8, src.data).Some?)
  {
    hide Reader.Valid, Reader.Contents, Reader.CanRead;
    hide ApplyRecord, RecordAt, Progress, Scanned, Extended;
    var rewound := src.Seek(Start(0));
    var header := ReadHeader(src);
    NothingRead(utf8, src.data);
    if header.Err? {
      return Err(header.error);
    }
    var s := EMPTY;
    ghost var done: seq<Record> := [];
    while true
      invariant src.Valid() && Progress(utf8, src.data, done, s, src.position)
      decreases if src.position <= |src.data| then 1 + |src.data| - src.position else 0
    {
      ghost var p := src.position;
      var read := ReadTag(src);
      if read.Err? {
        return Err(read.error);
      }
      if read.value.None? {
        EndsEarly(utf8, src.data, done, s, p);
        return Err(Truncated);
      }
      var tag := read.value.value;
      if tag == FOOTER_MAGIC {
        r := FinishScan(src, utf8, s, p, done);
        return;
      }
      var at := src.StreamPosition();
      var recorded := ScanRecord(src, utf8, s, tag, at - 4);
      if recorded.Err? {
        Doomed(utf8, src.data, p, done, s);
        return Err(recorded.error);
      }
      Advanced(utf8, src.data, done, s, p, recorded.value, src.position);
      done := Extended(done, src.data, p);
      s := recorded.value;
    }
  }

  lemma NothingRead(utf8: seq<byte> -> bool, data: seq<byte>)
    ensures HeaderAccepted(data) ==> Progress(utf8, data, [], EMPTY, HEADER_SIZE)
    ensures !HeaderAccepted(data) ==> Scanned(utf8, data).None?
  {
    hide RecordsAt;
    var rest := RecordsAt(data, HEADER_SIZE);
    if rest.Some? {
      assert [] + rest.value.0 == rest.value.0;
    }
  }
}
