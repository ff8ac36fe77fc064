// What acceptance by the scan guarantees, whatever the bytes.
module Soundness {
  import opened Bytes
  import opened Format
  import opened FormatCodec
  import opened Paths
  import opened Catalog
  import Chunking

  // ------------------------------------------------------- sums over chunks

  lemma {:induction false} SizeOfExtend(chunks: map<Digest, ChunkMeta>, keys: set<Digest>, h: Digest, m: ChunkMeta)
    requires keys <= chunks.Keys && h !in chunks
    ensures SizeOf(chunks[h := m], keys) == SizeOf(chunks, keys)
  {
    if keys != {} {
      var k :| k in keys;
      SizeOfPick(chunks, keys, k);
      SizeOfPick(chunks[h := m], keys, k);
      SizeOfExtend(chunks, keys - {k}, h, m);
    }
  }

  lemma UniqueBytesExtend(chunks: map<Digest, ChunkMeta>, h: Digest, m: ChunkMeta)
    requires h !in chunks
    ensures UniqueBytes(chunks[h := m]) == UniqueBytes(chunks) + m.originalSize
  {
    var more := chunks[h := m];
    SizeOfPick(more, more.Keys, h);
    assert more.Keys - {h} == chunks.Keys;
    SizeOfExtend(chunks, chunks.Keys, h, m);
  }

  lemma SizeOfAdd(chunks: map<Digest, ChunkMeta>, keys: set<Digest>, h: Digest)
    requires keys <= chunks.Keys && h in chunks
    ensures SizeOf(chunks, keys + {h}) == SizeOf(chunks, keys) + (if h in keys then 0 else chunks[h].originalSize)
  {
    if h in keys {
      assert keys + {h} == keys;
    } else {
      SizeOfPick(chunks, keys + {h}, h);
      assert keys + {h} - {h} == keys;
    }
  }

  // The size of a file as its references add up.
  function RefSize(chunks: map<Digest, ChunkMeta>, refs: seq<Digest>): nat
    requires forall i :: 0 <= i < |refs| ==> refs[i] in chunks
  {
    if refs == [] then 0
    else RefSize(chunks, refs[..|refs| - 1]) + chunks[refs[|refs| - 1]].originalSize
  }

  lemma {:induction false} RefSizeExtend(chunks: map<Digest, ChunkMeta>, refs: seq<Digest>, h: Digest, m: ChunkMeta)
    requires h !in chunks
    requires forall i :: 0 <= i < |refs| ==> refs[i] in chunks
    ensures RefSize(chunks[h := m], refs) == RefSize(chunks, refs)
  {
    if refs != [] {
      RefSizeExtend(chunks, refs[..|refs| - 1], h, m);
    }
  }

  // -------------------------------------------------------- resolving a file

  lemma {:induction false} RefsResolved(s: ScanState, refs: seq<Digest>)
    requires Resolve(s, refs).Some?
    ensures forall i :: 0 <= i < |refs| ==> refs[i] in s.chunks
  {
    if refs != [] {
      RefsResolved(s, refs[..|refs| - 1]);
    }
  }

  lemma {:induction false} Resolved(s: ScanState, refs: seq<Digest>)
    requires Resolve(s, refs).Some?
    ensures forall i :: 0 <= i < |refs| ==> refs[i] in s.chunks
    ensures var t := Resolve(s, refs).value;
      && t.size == RefSize(s.chunks, refs)
      && t.logicalBytes == s.logicalBytes + t.size
      && t.chunkReferences == s.chunkReferences + |refs|
      && t.referenced == s.referenced + (set h | h in refs)
  {
    RefsResolved(s, refs);
    if refs != [] {
      var init, last := refs[..|refs| - 1], refs[|refs| - 1];
      Resolved(s, init);
      assert refs == init + [last];
      assert (set h | h in refs) == (set h | h in init) + {last};
    }
  }

  // References bring at least as many logical bytes as new distinct chunks.
  lemma {:induction false} ResolvedCovers(s: ScanState, refs: seq<Digest>)
    requires Resolve(s, refs).Some?
    requires s.referenced <= s.chunks.Keys && SizeOf(s.chunks, s.referenced) <= s.logicalBytes
    ensures var t := Resolve(s, refs).value;
      t.referenced <= s.chunks.Keys && SizeOf(s.chunks, t.referenced) <= t.logicalBytes
  {
    if refs != [] {
      var init, last := refs[..|refs| - 1], refs[|refs| - 1];
      ResolvedCovers(s, init);
      SizeOfAdd(s.chunks, Resolve(s, init).value.referenced, last);
    }
  }

  // ------------------------------------------------------------- invariants

  // The counters of a scan in progress.
  ghost predicate Balanced(s: ScanState) {
    && s.entries == |s.files| + |s.directories| && s.fileCount == |s.files| && s.directoryCount == |s.directories|
    && s.originalBytes == s.logicalBytes <= U64_MAX
    && s.referenced <= s.chunks.Keys
    && SizeOf(s.chunks, s.referenced) <= s.logicalBytes
    && s.storedBytes <= UniqueBytes(s.chunks)
  }

  lemma {:induction false} FoldBalanced(utf8: seq<byte> -> bool, rs: seq<Record>)
    requires Fold(utf8, rs).Some?
    ensures Balanced(Fold(utf8, rs).value)
  {
    if rs != [] {
      var init, r := rs[..|rs| - 1], rs[|rs| - 1];
      FoldBalanced(utf8, init);
      StepBalanced(utf8, Fold(utf8, init).value, r, OffsetAfter(init));
    }
  }

  lemma StepBalanced(utf8: seq<byte> -> bool, s: ScanState, r: Record, at: nat)
    requires Balanced(s) && ApplyRecord(utf8, s, r, at).Some?
    ensures Balanced(ApplyRecord(utf8, s, r, at).value)
  {
    hide ValidPath, Resolve, SizeOf;
    match r {
      case Chunk(compression, _, originalSize, payload, hash) =>
        var meta := ChunkMeta(compression, originalSize, |payload|, at + CHUNK_HEADER_SIZE);
        SizeOfExtend(s.chunks, s.referenced, hash, meta);
        UniqueBytesExtend(s.chunks, hash, meta);
      case Directory(_, _) =>
      case File(_, _, _, chunkHashes) =>
        Resolved(s, chunkHashes);
        ResolvedCovers(s, chunkHashes);
    }
  }

  // The tables of a scan in progress: every path is valid and recorded once,
  // and every file resolves to chunks already known.
  ghost predicate Consistent(utf8: seq<byte> -> bool, s: ScanState) {
    Recorded(utf8, s) && (forall i :: 0 <= i < |s.files| ==> FileResolves(s.chunks, s.files[i]))
  }

  ghost predicate Recorded(utf8: seq<byte> -> bool, s: ScanState) {
    && (forall i :: 0 <= i < |s.directories| ==> s.directories[i] in s.paths)
    && (forall i :: 0 <= i < |s.files| ==> s.files[i].path in s.paths && s.files[i].path in s.filePaths)
    && (forall i :: 0 <= i < |s.directories| ==> s.directories[i] !in s.filePaths)
    && (forall p :: p in s.filePaths ==> exists i :: 0 <= i < |s.files| && s.files[i].path == p)
    && (forall p :: p in s.paths ==> utf8(p) && ValidPath(p) && (p in s.filePaths || p in s.directories))
    && (forall i, j :: 0 <= i < j < |s.directories| ==> s.directories[i] != s.directories[j])
    && (forall i, j :: 0 <= i < j < |s.files| ==> s.files[i].path != s.files[j].path)
  }

  ghost predicate FileResolves(chunks: map<Digest, ChunkMeta>, f: FileRecord) {
    && |f.chunkHashes| <= Chunking.MAX_CHUNKS_PER_FILE
    && (forall i :: 0 <= i < |f.chunkHashes| ==> f.chunkHashes[i] in chunks)
    && RefSize(chunks, f.chunkHashes) == f.originalSize
  }

  lemma {:induction false} FoldConsistent(utf8: seq<byte> -> bool, rs: seq<Record>)
    requires Fold(utf8, rs).Some?
    ensures Consistent(utf8, Fold(utf8, rs).value)
  {
    hide ApplyRecord;
    if rs != [] {
      var init, r := rs[..|rs| - 1], rs[|rs| - 1];
      FoldConsistent(utf8, init);
      var s := Fold(utf8, init).value;
      match r {
        case Chunk(_, _, _, _, _) => ChunkConsistent(utf8, s, r, OffsetAfter(init));
        case Directory(_, _) => DirectoryConsistent(utf8, s, r, OffsetAfter(init));
        case File(_, _, _, _) => FileConsistent(utf8, s, r, OffsetAfter(init));
      }
    }
  }

  lemma ChunkConsistent(utf8: seq<byte> -> bool, s: ScanState, r: Record, at: nat)
    requires Consistent(utf8, s) && r.Chunk? && ApplyRecord(utf8, s, r, at).Some?
    ensures Consistent(utf8, ApplyRecord(utf8, s, r, at).value)
  {
    hide ValidPath, RefSize, UniqueBytes;
    var meta := ChunkMeta(r.compression, r.originalSize, |r.payload|, at + CHUNK_HEADER_SIZE);
    forall i | 0 <= i < |s.files|
      ensures FileResolves(s.chunks[r.hash := meta], s.files[i])
    {
      RefSizeExtend(s.chunks, s.files[i].chunkHashes, r.hash, meta);
    }
  }

  lemma DirectoryConsistent(utf8: seq<byte> -> bool, s: ScanState, r: Record, at: nat)
    requires Consistent(utf8, s) && r.Directory? && ApplyRecord(utf8, s, r, at).Some?
    ensures Consistent(utf8, ApplyRecord(utf8, s, r, at).value)
  {
    hide ValidPath, FileResolves;
  }

  lemma FileConsistent(utf8: seq<byte> -> bool, s: ScanState, r: Record, at: nat)
    requires Consistent(utf8, s) && r.File? && ApplyRecord(utf8, s, r, at).Some?
    ensures Consistent(utf8, ApplyRecord(utf8, s, r, at).value)
  {
    hide ValidPath, Resolve, Recorded, RefSize;
    Resolved(s, r.chunkHashes);
    FileRecorded(utf8, s, r, at);
  }

  lemma FileRecorded(utf8: seq<byte> -> bool, s: ScanState, r: Record, at: nat)
    requires Recorded(utf8, s) && r.File? && ApplyRecord(utf8, s, r, at).Some?
    ensures Recorded(utf8, ApplyRecord(utf8, s, r, at).value)
  {
    hide ValidPath, Resolve;
    var after := ApplyRecord(utf8, s, r, at).value;
    assert after.files[|s.files|].path == r.path;
    forall p | p in after.filePaths
      ensures exists i :: 0 <= i < |after.files| && after.files[i].path == p
    {
      if p != r.path {
        var i :| 0 <= i < |s.files| && s.files[i].path == p;
        assert after.files[i].path == p;
      }
    }
  }

  // --------------------------------------------------------- the chunk table

  predicate ChunkAtIndex(rs: seq<Record>, j: nat, h: Digest) {
    j < |rs| && rs[j].Chunk? && rs[j].hash == h
  }

  function MetaOf(rs: seq<Record>, j: nat): ChunkMeta
    requires j < |rs| && rs[j].Chunk?
  {
    ChunkMeta(rs[j].compression, rs[j].originalSize, |rs[j].payload|, OffsetAfter(rs[..j]) + CHUNK_HEADER_SIZE)
  }

  // The chunk table lists each chunk record once, under its hash, with the
  // place of its payload.
  ghost predicate TableOf(rs: seq<Record>, chunks: map<Digest, ChunkMeta>) {
    && (forall j: nat :: j < |rs| && rs[j].Chunk? ==> rs[j].hash in chunks && chunks[rs[j].hash] == MetaOf(rs, j))
    && (forall h :: h in chunks ==> exists j: nat :: ChunkAtIndex(rs, j, h))
    && (forall i: nat, j: nat :: i < j < |rs| && rs[i].Chunk? && rs[j].Chunk? ==> rs[i].hash != rs[j].hash)
    && (forall h :: h in chunks ==>
          ValidChunk(chunks[h].compression, chunks[h].originalSize, chunks[h].payloadSize))
  }

  lemma {:induction false} ChunkTable(utf8: seq<byte> -> bool, rs: seq<Record>)
    requires Fold(utf8, rs).Some?
    ensures TableOf(rs, Fold(utf8, rs).value.chunks)
  {
    hide ApplyRecord;
    if rs != [] {
      var n := |rs| - 1;
      ChunkTable(utf8, rs[..n]);
      var before := Fold(utf8, rs[..n]).value;
      TableStep(utf8, rs, before);
    }
  }

  lemma TableStep(utf8: seq<byte> -> bool, rs: seq<Record>, before: ScanState)
    requires rs != [] && TableOf(rs[..|rs| - 1], before.chunks)
    requires ApplyRecord(utf8, before, rs[|rs| - 1], OffsetAfter(rs[..|rs| - 1])).Some?
    ensures TableOf(rs, ApplyRecord(utf8, before, rs[|rs| - 1], OffsetAfter(rs[..|rs| - 1])).value.chunks)
  {
    hide ApplyDirectory, ApplyFile, OffsetAfter, TableOf, ValidChunk;
    var n := |rs| - 1;
    TablesKept(utf8, before, rs[n], OffsetAfter(rs[..n]));
    if rs[n].Chunk? {
      TableWithNew(rs, before.chunks);
    } else {
      TableWithOther(rs, before.chunks);
    }
  }

  lemma MetasKept(rs: seq<Record>, j: nat)
    requires j < |rs| - 1 && rs[j].Chunk?
    ensures MetaOf(rs, j) == MetaOf(rs[..|rs| - 1], j)
  {
    hide OffsetAfter;
    assert rs[..|rs| - 1][..j] == rs[..j];
  }

  lemma TableWithOther(rs: seq<Record>, chunks: map<Digest, ChunkMeta>)
    requires rs != [] && TableOf(rs[..|rs| - 1], chunks) && !rs[|rs| - 1].Chunk?
    ensures TableOf(rs, chunks)
  {
    hide OffsetAfter, MetaOf, ValidChunk;
    var init := rs[..|rs| - 1];
    forall j: nat | j < |rs| && rs[j].Chunk?
      ensures rs[j].hash in chunks && chunks[rs[j].hash] == MetaOf(rs, j)
    {
      MetasKept(rs, j);
      assert init[j].Chunk?;
    }
    forall h | h in chunks
      ensures exists j: nat :: ChunkAtIndex(rs, j, h)
    {
      var j: nat :| ChunkAtIndex(init, j, h);
      assert ChunkAtIndex(rs, j, h);
    }
    forall i: nat, j: nat | i < j < |rs| && rs[i].Chunk? && rs[j].Chunk?
      ensures rs[i].hash != rs[j].hash
    {
      assert init[i].hash != init[j].hash;
    }
  }

  lemma TableWithNew(rs: seq<Record>, chunks: map<Digest, ChunkMeta>)
    requires rs != [] && TableOf(rs[..|rs| - 1], chunks) && rs[|rs| - 1].Chunk?
    requires rs[|rs| - 1].hash !in chunks
    requires var m := MetaOf(rs, |rs| - 1); ValidChunk(m.compression, m.originalSize, m.payloadSize)
    ensures TableOf(rs, chunks[rs[|rs| - 1].hash := MetaOf(rs, |rs| - 1)])
  {
    hide OffsetAfter, MetaOf, ValidChunk;
    var n := |rs| - 1;
    var init, more := rs[..n], chunks[rs[n].hash := MetaOf(rs, n)];
    forall j: nat | j < n && rs[j].Chunk?
      ensures rs[j].hash in chunks && chunks[rs[j].hash] == MetaOf(rs, j)
    {
      MetasKept(rs, j);
      assert init[j].Chunk?;
    }
    forall h | h in more
      ensures exists j: nat :: ChunkAtIndex(rs, j, h)
    {
      if h in chunks {
        var j: nat :| ChunkAtIndex(init, j, h);
        assert ChunkAtIndex(rs, j, h);
      } else {
        assert ChunkAtIndex(rs, n, h);
      }
    }
    forall i: nat, j: nat | i < j < |rs| && rs[i].Chunk? && rs[j].Chunk?
      ensures rs[i].hash != rs[j].hash
    {
      if j < n {
        assert init[i].hash != init[j].hash;
      }
    }
  }

  lemma TablesKept(utf8: seq<byte> -> bool, before: ScanState, r: Record, at: nat)
    requires ApplyRecord(utf8, before, r, at).Some?
    ensures !r.Chunk? ==> ApplyRecord(utf8, before, r, at).value.chunks == before.chunks
  {
    hide Resolve, ValidPath;
  }

  lemma {:induction false} AcceptedSoFar(utf8: seq<byte> -> bool, rs: seq<Record>, i: nat)
    requires Fold(utf8, rs).Some? && i < |rs|
    ensures Fold(utf8, rs[..i]).Some?
    ensures ApplyRecord(utf8, Fold(utf8, rs[..i]).value, rs[i], OffsetAfter(rs[..i])).Some?
  {
    hide ApplyRecord, OffsetAfter;
    var init := rs[..|rs| - 1];
    if i < |init| {
      AcceptedSoFar(utf8, init, i);
      assert init[..i] == rs[..i];
    }
  }

  // Every reference of an accepted file names an earlier chunk record.
  lemma ReferencesPointBack(utf8: seq<byte> -> bool, rs: seq<Record>, i: nat, k: nat)
    requires Fold(utf8, rs).Some? && i < |rs| && rs[i].File? && k < |rs[i].chunkHashes|
    ensures exists j: nat :: j < i && ChunkAtIndex(rs, j, rs[i].chunkHashes[k])
  {
    hide ApplyRecord, TableOf, Fold;
    var before, h := rs[..i], rs[i].chunkHashes[k];
    AcceptedSoFar(utf8, rs, i);
    ChunkTable(utf8, before);
    var s := Fold(utf8, before).value;
    RefsKnown(utf8, s, rs[i], OffsetAfter(before), k);
    TableFinds(before, s.chunks, h);
    var j: nat :| ChunkAtIndex(before, j, h);
    assert ChunkAtIndex(rs, j, h);
  }

  lemma RefsKnown(utf8: seq<byte> -> bool, s: ScanState, r: Record, at: nat, k: nat)
    requires r.File? && ApplyRecord(utf8, s, r, at).Some? && k < |r.chunkHashes|
    ensures r.chunkHashes[k] in s.chunks
  {
    hide ValidPath;
    RefsResolved(s, r.chunkHashes);
  }

  lemma TableFinds(rs: seq<Record>, chunks: map<Digest, ChunkMeta>, h: Digest)
    requires TableOf(rs, chunks) && h in chunks
    ensures exists j: nat :: ChunkAtIndex(rs, j, h)
  {
  }

  // --------------------------------------------------------------- payloads

  // Where the payload of chunk record j lies, and that it ends before the
  // next record begins.
  lemma PayloadPlace(rs: seq<Record>, j: nat)
    requires j < |rs| && rs[j].Chunk? && RecordFits(rs[j])
    ensures MetaOf(rs, j).payloadOffset + |rs[j].payload| == OffsetAfter(rs[..j + 1])
    ensures OffsetAfter(rs[..j + 1]) <= OffsetAfter(rs)
    ensures OffsetAfter(rs[..j]) <= MetaOf(rs, j).payloadOffset
  {
    hide PrintRecords, PrintRecord, RecordFits;
    assert rs[..j + 1] == rs[..j] + [rs[j]];
    PrintRecordsSnoc(rs[..j], rs[j]);
    ChunkRecordLength(rs[j]);
    PrefixOffsets(rs, j + 1, |rs|);
    assert rs[..|rs|] == rs;
  }

  lemma PrefixOffsets(rs: seq<Record>, i: nat, j: nat)
    requires i <= j <= |rs|
    ensures OffsetAfter(rs[..i]) <= OffsetAfter(rs[..j])
  {
    hide PrintRecords;
    PrintRecordsAppend(rs[..i], rs[i..j]);
    assert rs[..j] == rs[..i] + rs[i..j];
  }

  lemma PayloadBytes(a: Archive, j: nat)
    requires j < |a.records| && a.records[j].Chunk? && RecordFits(a.records[j])
    ensures Holds(PrintArchive(a), MetaOf(a.records, j).payloadOffset, a.records[j].payload)
  {
    hide PrintHeader, PrintFooter, PrintRecords, ChunkHeaderBytes;
    var rs := a.records;
    var r := rs[j];
    PrintRecordsAppend(rs[..j + 1], rs[j + 1..]);
    PrintRecordsSnoc(rs[..j], r);
    assert rs[..j + 1] == rs[..j] + [r];
    assert rs == rs[..j + 1] + rs[j + 1..];
    var header := ChunkHeaderBytes(r.compression, r.padding, r.originalSize, |r.payload|, r.hash);
    ChunkRecordLength(r);
    var lead := PrintHeader(a.flags, a.reserved) + PrintRecords(rs[..j]) + header;
    var tail := PrintRecords(rs[j + 1..]) + PrintFooter(a.footer);
    assert PrintArchive(a) == lead + r.payload + tail;
    assert |lead| == MetaOf(rs, j).payloadOffset;
  }

  ghost predicate RangesDisjoint(chunks: map<Digest, ChunkMeta>) {
    forall g, h :: g in chunks && h in chunks && g != h ==>
      || chunks[g].payloadOffset + chunks[g].payloadSize <= chunks[h].payloadOffset
      || chunks[h].payloadOffset + chunks[h].payloadSize <= chunks[g].payloadOffset
  }

  // ------------------------------------------------------------ the theorems

  // Scan soundness: for arbitrary bytes, an accepted catalog has valid, unique
  // paths with no file above another entry, payload ranges inside the archive
  // that do not overlap, and files that resolve to chunks adding up to their
  // size.
  lemma ScanSound(utf8: seq<byte> -> bool, data: seq<byte>)
    requires Scanned(utf8, data).Some?
    ensures var c := Scanned(utf8, data).value;
      && (forall h :: h in c.chunks ==>
            HEADER_SIZE <= c.chunks[h].payloadOffset
            && c.chunks[h].payloadOffset + c.chunks[h].payloadSize <= |data|
            && ValidChunk(c.chunks[h].compression, c.chunks[h].originalSize, c.chunks[h].payloadSize))
      && RangesDisjoint(c.chunks)
      && (forall i :: 0 <= i < |c.files| ==> FileResolves(c.chunks, c.files[i]))
  {
    var a := ParseArchive(data).value;
    ArchiveCodec(data, a);
    ChunkTable(utf8, a.records);
    FoldConsistent(utf8, a.records);
    RangesInside(a, Fold(utf8, a.records).value.chunks);
  }

  lemma RangesInside(a: Archive, chunks: map<Digest, ChunkMeta>)
    requires ArchiveFits(a) && TableOf(a.records, chunks)
    ensures RangesDisjoint(chunks)
    ensures forall h :: h in chunks ==>
      && HEADER_SIZE <= chunks[h].payloadOffset
      && chunks[h].payloadOffset + chunks[h].payloadSize <= |PrintArchive(a)|
  {
    hide PrintRecords, PrintHeader, PrintFooter, RecordFits, ValidChunk;
    var rs := a.records;
    forall h | h in chunks
      ensures HEADER_SIZE <= chunks[h].payloadOffset
      ensures chunks[h].payloadOffset + chunks[h].payloadSize <= |PrintArchive(a)|
    {
      var j: nat :| ChunkAtIndex(rs, j, h);
      assert RecordFits(rs[j]);
      PayloadPlace(rs, j);
    }
    forall g, h | g in chunks && h in chunks && g != h
      ensures chunks[g].payloadOffset + chunks[g].payloadSize <= chunks[h].payloadOffset
           || chunks[h].payloadOffset + chunks[h].payloadSize <= chunks[g].payloadOffset
    {
      var i: nat :| ChunkAtIndex(rs, i, g);
      var j: nat :| ChunkAtIndex(rs, j, h);
      assert RecordFits(rs[i]) && RecordFits(rs[j]);
      PayloadPlace(rs, i);
      PayloadPlace(rs, j);
      if i < j {
        PrefixOffsets(rs, i + 1, j);
      } else {
        PrefixOffsets(rs, j + 1, i);
      }
    }
  }

  ghost predicate PathsDistinct(c: ArchiveCatalog) {
    && (forall i, j :: 0 <= i < j < |c.files| ==> c.files[i].path != c.files[j].path)
    && (forall i, j :: 0 <= i < j < |c.directories| ==> c.directories[i] != c.directories[j])
    && (forall i, j :: 0 <= i < |c.files| && 0 <= j < |c.directories| ==> c.files[i].path != c.directories[j])
  }

  ghost predicate IsEntry(c: ArchiveCatalog, path: Path) {
    (exists i :: 0 <= i < |c.files| && c.files[i].path == path) || path in c.directories
  }

  lemma PathsSound(utf8: seq<byte> -> bool, data: seq<byte>)
    requires Scanned(utf8, data).Some?
    ensures var c := Scanned(utf8, data).value;
      && PathsDistinct(c)
      && (forall path :: IsEntry(c, path) ==> utf8(path) && ValidPath(path))
      && (forall path, i :: IsEntry(c, path) && 0 <= i < |c.files| ==> !ProperlyBelow(path, c.files[i].path))
  {
    hide ValidPath, Parts, FileResolves;
    var a := ParseArchive(data).value;
    FoldConsistent(utf8, a.records);
    var s := Fold(utf8, a.records).value;
    TreeMeaning(s.paths, s.filePaths);
  }

  // Once every chunk is referenced, neither the overflow of the sum of unique
  // sizes nor a negative deduplication count can occur.
  lemma NoBadStatistics(utf8: seq<byte> -> bool, rs: seq<Record>)
    requires Fold(utf8, rs).Some?
    requires |Fold(utf8, rs).value.referenced| == |Fold(utf8, rs).value.chunks|
    ensures var s := Fold(utf8, rs).value;
      s.referenced == s.chunks.Keys && UniqueBytes(s.chunks) <= s.logicalBytes <= U64_MAX
  {
    FoldBalanced(utf8, rs);
    var s := Fold(utf8, rs).value;
    SameSize(s.referenced, s.chunks.Keys);
  }

  lemma SameSize(a: set<Digest>, b: set<Digest>)
    requires a <= b && |a| == |b|
    ensures a == b
  {
    assert b == a + (b - a);
  }

  // Conservation: the logical bytes are the unique ones plus those saved, and
  // what is stored plus what is saved never exceeds them.
  lemma Conservation(utf8: seq<byte> -> bool, data: seq<byte>)
    requires Scanned(utf8, data).Some?
    ensures var c := Scanned(utf8, data).value;
      && c.info.originalBytes == UniqueBytes(c.chunks) + c.info.deduplicatedBytes
      && c.info.storedPayloadBytes + c.info.deduplicatedBytes <= c.info.originalBytes
      && c.info.entries == c.info.files + c.info.directories
      && c.info.files == |c.files| && c.info.directories == |c.directories| && c.info.uniqueChunks == |c.chunks|
      && c.info.uniqueChunks <= c.info.chunkReferences
  {
    var rs := ParseArchive(data).value.records;
    FoldBalanced(utf8, rs);
    NoBadStatistics(utf8, rs);
    ReferencesCount(utf8, rs);
  }

  lemma {:induction false} ReferencesCount(utf8: seq<byte> -> bool, rs: seq<Record>)
    requires Fold(utf8, rs).Some?
    ensures |Fold(utf8, rs).value.referenced| <= Fold(utf8, rs).value.chunkReferences
  {
    if rs != [] {
      ReferencesCount(utf8, rs[..|rs| - 1]);
      if rs[|rs| - 1].File? {
        ResolveCount(Fold(utf8, rs[..|rs| - 1]).value, rs[|rs| - 1].chunkHashes);
      }
    }
  }

  lemma {:induction false} ResolveCount(s: ScanState, refs: seq<Digest>)
    requires Resolve(s, refs).Some? && |s.referenced| <= s.chunkReferences
    ensures |Resolve(s, refs).value.referenced| <= Resolve(s, refs).value.chunkReferences
  {
    if refs != [] {
      ResolveCount(s, refs[..|refs| - 1]);
    }
  }
}
