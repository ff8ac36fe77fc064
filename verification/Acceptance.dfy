// Which archives are accepted, told from their records and footer alone.
module Acceptance {
  import opened Bytes
  import opened Format
  import opened FormatCodec
  import opened Paths
  import opened Catalog
  import opened Ledger
  import opened Soundness

  // --------------------------------------------------------- what is listed

  function PathsOf(rs: seq<Record>): set<Path> {
    if rs == [] then {}
    else
      var r := rs[|rs| - 1];
      PathsOf(rs[..|rs| - 1]) + (if r.Chunk? then {} else {r.path})
  }

  function FilePathsOf(rs: seq<Record>): set<Path> {
    if rs == [] then {}
    else
      var r := rs[|rs| - 1];
      FilePathsOf(rs[..|rs| - 1]) + (if r.File? then {r.path} else {})
  }

  function FilesOf(rs: seq<Record>): seq<FileRecord> {
    if rs == [] then []
    else
      var r := rs[|rs| - 1];
      FilesOf(rs[..|rs| - 1]) + if r.File? then [FileRecord(r.path, r.originalSize, r.hash, r.chunkHashes)] else []
  }

  function DirectoriesOf(rs: seq<Record>): seq<Path> {
    if rs == [] then []
    else
      var r := rs[|rs| - 1];
      DirectoriesOf(rs[..|rs| - 1]) + if r.Directory? then [r.path] else []
  }

  // The size of the chunk recorded under a hash; 0 if there is none.
  function SizeUnder(rs: seq<Record>, h: Digest): nat {
    if rs == [] then 0
    else
      var r := rs[|rs| - 1];
      if r.Chunk? && r.hash == h then r.originalSize else SizeUnder(rs[..|rs| - 1], h)
  }

  function SizesUnder(rs: seq<Record>, refs: seq<Digest>): nat {
    if refs == [] then 0 else SizesUnder(rs, refs[..|refs| - 1]) + SizeUnder(rs, refs[|refs| - 1])
  }

  // ------------------------------------------------------- the requirements

  // What is asked of a record behind others: a chunk has an allowed size and
  // form and a new hash; a path is new, valid and text; a file refers to at
  // most 2^20 chunks, all recorded before it, of the declared size together.
  predicate InOrder(utf8: seq<byte> -> bool, before: seq<Record>, r: Record) {
    match r
    case Chunk(compression, _, originalSize, payload, hash) =>
      && 1 <= originalSize <= 1048576
      && ((compression == 0 && |payload| == originalSize) || (compression == 1 && 1 <= |payload| < originalSize))
      && hash !in Emitted(before)
    case Directory(_, path) =>
      utf8(path) && ValidPath(path) && path !in PathsOf(before)
    case File(path, originalSize, _, chunkHashes) =>
      && utf8(path) && ValidPath(path) && path !in PathsOf(before)
      && |chunkHashes| <= 1048576
      && (forall h :: h in chunkHashes ==> h in Emitted(before))
      && SizesUnder(before, chunkHashes) == originalSize
  }

  predicate AllInOrder(utf8: seq<byte> -> bool, rs: seq<Record>) {
    forall i :: 0 <= i < |rs| ==> InOrder(utf8, rs[..i], rs[i])
  }

  // All records are in order, every chunk is referenced, no file is an
  // ancestor of an entry, and the footer counts and sums the records.
  ghost predicate Acceptable(utf8: seq<byte> -> bool, a: Archive) {
    && AllInOrder(utf8, a.records)
    && AllReferenced(a.records)
    && FilesAreLeaves(a.records)
    && FooterSays(a.footer, TallyOf(a.records))
  }

  ghost predicate AllReferenced(rs: seq<Record>) {
    forall h :: h in Emitted(rs) ==> h in Referenced(rs)
  }

  ghost predicate FilesAreLeaves(rs: seq<Record>) {
    forall f, path :: f in FilePathsOf(rs) && path in PathsOf(rs) ==> !(Parts(f) < Parts(path))
  }

  predicate FooterSays(f: Footer, t: Tally) {
    && f.entries == t.files + t.directories && f.files == t.files && f.directories == t.directories
    && f.uniqueChunks == t.chunks && f.chunkReferences == t.references
    && f.originalBytes == t.fileBytes && f.storedPayloadBytes == t.storedBytes
    && f.deduplicatedBytes == t.fileBytes - t.chunkBytes
  }

  // ----------------------------------------------------- the scan's tables

  predicate TallyFits(t: Tally) {
    && t.files + t.directories <= U64_MAX && t.references <= U64_MAX
    && t.fileBytes <= U64_MAX && t.storedBytes <= U64_MAX
  }

  ghost predicate TablesOf(rs: seq<Record>, s: ScanState) {
    && s.chunks.Keys == Emitted(rs) && s.referenced == Referenced(rs)
    && (forall h :: h in s.chunks ==> s.chunks[h].originalSize == SizeUnder(rs, h))
    && s.paths == PathsOf(rs) && s.filePaths == FilePathsOf(rs)
    && s.files == FilesOf(rs) && s.directories == DirectoriesOf(rs)
  }

  ghost predicate CountersOf(t: Tally, s: ScanState) {
    && s.entries == t.files + t.directories && s.fileCount == t.files && s.directoryCount == t.directories
    && s.chunkReferences == t.references && s.originalBytes == t.fileBytes && s.logicalBytes == t.fileBytes
    && s.storedBytes == t.storedBytes && |s.chunks| == t.chunks && UniqueBytes(s.chunks) == t.chunkBytes
  }

  ghost predicate Mirrors(rs: seq<Record>, s: ScanState) {
    TablesOf(rs, s) && CountersOf(TallyOf(rs), s) && TallyFits(TallyOf(rs))
  }

  lemma ListsGrow(rs: seq<Record>, r: Record)
    ensures PathsOf(rs + [r]) == PathsOf(rs) + (if r.Chunk? then {} else {r.path})
    ensures FilePathsOf(rs + [r]) == FilePathsOf(rs) + (if r.File? then {r.path} else {})
    ensures FilesOf(rs + [r])
         == FilesOf(rs) + if r.File? then [FileRecord(r.path, r.originalSize, r.hash, r.chunkHashes)] else []
    ensures DirectoriesOf(rs + [r]) == DirectoriesOf(rs) + if r.Directory? then [r.path] else []
    ensures forall h :: SizeUnder(rs + [r], h) == if r.Chunk? && r.hash == h then r.originalSize else SizeUnder(rs, h)
  {
    assert (rs + [r])[..|rs|] == rs;
  }

  // --------------------------------------------------------------- one step

  lemma {:induction false} ResolvesExactly(rs: seq<Record>, s: ScanState, refs: seq<Digest>)
    requires Mirrors(rs, s)
    ensures Resolve(s, refs).Some? <==>
      && (forall h :: h in refs ==> h in Emitted(rs))
      && s.logicalBytes + SizesUnder(rs, refs) <= U64_MAX && s.chunkReferences + |refs| <= U64_MAX
    ensures Resolve(s, refs).Some? ==>
      Resolve(s, refs).value == RefTotals(SizesUnder(rs, refs), s.logicalBytes + SizesUnder(rs, refs),
                                          s.chunkReferences + |refs|, s.referenced + Members(refs))
  {
    hide Emitted, Referenced, SizeUnder, TallyOf, FilesOf, DirectoriesOf, PathsOf, FilePathsOf, UniqueBytes;
    if refs == [] {
    } else {
      var init, last := refs[..|refs| - 1], refs[|refs| - 1];
      ResolvesExactly(rs, s, init);
      assert refs == init + [last];
      MembersSnoc(init, last);
    }
  }

  lemma ChunkTables(rs: seq<Record>, s: ScanState, r: Record, meta: ChunkMeta)
    requires TablesOf(rs, s) && r.Chunk? && r.hash !in s.chunks && meta.originalSize == r.originalSize
    ensures TablesOf(rs + [r], s.(chunks := s.chunks[r.hash := meta], storedBytes := s.storedBytes + meta.payloadSize))
  {
    hide Emitted, Referenced, SizeUnder, TallyOf, FilesOf, DirectoriesOf, PathsOf, FilePathsOf;
    RecordAdded(rs, r);
    ListsGrow(rs, r);
    assert s.chunks[r.hash := meta].Keys == s.chunks.Keys + {r.hash};
  }

  lemma ChunkCounters(rs: seq<Record>, s: ScanState, r: Record, meta: ChunkMeta)
    requires CountersOf(TallyOf(rs), s) && r.Chunk? && r.hash !in s.chunks
    requires meta.originalSize == r.originalSize && meta.payloadSize == |r.payload|
    ensures CountersOf(TallyOf(rs + [r]),
                       s.(chunks := s.chunks[r.hash := meta], storedBytes := s.storedBytes + meta.payloadSize))
  {
    hide Emitted, Referenced, TallyOf, UniqueBytes;
    RecordAdded(rs, r);
    UniqueBytesExtend(s.chunks, r.hash, meta);
    var more := s.chunks[r.hash := meta];
    assert more.Keys == s.chunks.Keys + {r.hash};
    assert |more.Keys| == |more| && |s.chunks.Keys| == |s.chunks|;
  }

  lemma ChunkStep(utf8: seq<byte> -> bool, rs: seq<Record>, s: ScanState, r: Record, at: nat)
    requires Mirrors(rs, s) && r.Chunk?
    ensures ApplyRecord(utf8, s, r, at).Some? <==> InOrder(utf8, rs, r) && TallyFits(TallyOf(rs + [r]))
    ensures ApplyRecord(utf8, s, r, at).Some? ==> Mirrors(rs + [r], ApplyRecord(utf8, s, r, at).value)
  {
    hide Emitted, Referenced, SizeUnder, TallyOf, FilesOf, DirectoriesOf, PathsOf, FilePathsOf, UniqueBytes;
    RecordAdded(rs, r);
    if r.hash !in s.chunks {
      var meta := ChunkMeta(r.compression, r.originalSize, |r.payload|, at + CHUNK_HEADER_SIZE);
      ChunkTables(rs, s, r, meta);
      ChunkCounters(rs, s, r, meta);
      hide TablesOf;
    }
  }

  lemma DirectoryTables(rs: seq<Record>, s: ScanState, r: Record, s': ScanState)
    requires TablesOf(rs, s) && r.Directory?
    requires s' == s.(paths := s.paths + {r.path}, directories := s.directories + [r.path],
                      entries := s.entries + 1, directoryCount := s.directoryCount + 1)
    ensures TablesOf(rs + [r], s')
  {
    hide Emitted, Referenced, SizeUnder, FilesOf, DirectoriesOf, PathsOf, FilePathsOf;
    RecordAdded(rs, r);
    ListsGrow(rs, r);
  }

  lemma DirectoryStep(utf8: seq<byte> -> bool, rs: seq<Record>, s: ScanState, r: Record, at: nat)
    requires Mirrors(rs, s) && r.Directory?
    ensures ApplyRecord(utf8, s, r, at).Some? <==> InOrder(utf8, rs, r) && TallyFits(TallyOf(rs + [r]))
    ensures ApplyRecord(utf8, s, r, at).Some? ==> Mirrors(rs + [r], ApplyRecord(utf8, s, r, at).value)
  {
    hide Emitted, Referenced, SizeUnder, TallyOf, PathsOf, UniqueBytes, ValidPath;
    RecordAdded(rs, r);
    if ApplyRecord(utf8, s, r, at).Some? {
      DirectoryTables(rs, s, r, ApplyRecord(utf8, s, r, at).value);
      hide TablesOf;
    }
  }

  lemma FileStep(utf8: seq<byte> -> bool, rs: seq<Record>, s: ScanState, r: Record, at: nat)
    requires Mirrors(rs, s) && r.File?
    ensures ApplyRecord(utf8, s, r, at).Some? <==> InOrder(utf8, rs, r) && TallyFits(TallyOf(rs + [r]))
    ensures ApplyRecord(utf8, s, r, at).Some? ==> Mirrors(rs + [r], ApplyRecord(utf8, s, r, at).value)
  {
    hide Emitted, Referenced, SizeUnder, SizesUnder, TallyOf, FilesOf, DirectoriesOf, PathsOf, FilePathsOf, UniqueBytes;
    hide ValidPath, Resolve, Members;
    RecordAdded(rs, r);
    ListsGrow(rs, r);
    ResolvesExactly(rs, s, r.chunkHashes);
  }

  lemma Step(utf8: seq<byte> -> bool, rs: seq<Record>, s: ScanState, r: Record, at: nat)
    requires Mirrors(rs, s)
    ensures ApplyRecord(utf8, s, r, at).Some? <==> InOrder(utf8, rs, r) && TallyFits(TallyOf(rs + [r]))
    ensures ApplyRecord(utf8, s, r, at).Some? ==> Mirrors(rs + [r], ApplyRecord(utf8, s, r, at).value)
  {
    match r
    case Chunk(_, _, _, _, _) => ChunkStep(utf8, rs, s, r, at);
    case Directory(_, _) => DirectoryStep(utf8, rs, s, r, at);
    case File(_, _, _, _) => FileStep(utf8, rs, s, r, at);
  }

  // ------------------------------------------------------------ all records

  lemma InOrderSnoc(utf8: seq<byte> -> bool, rs: seq<Record>)
    requires rs != []
    ensures var n := |rs| - 1;
      AllInOrder(utf8, rs) <==> AllInOrder(utf8, rs[..n]) && InOrder(utf8, rs[..n], rs[n])
  {
    hide InOrder;
    var n := |rs| - 1;
    forall i | 0 <= i < n
      ensures rs[..n][..i] == rs[..i]
    {
    }
    if AllInOrder(utf8, rs) {
      forall i | 0 <= i < n
        ensures InOrder(utf8, rs[..n][..i], rs[..n][i])
      {
        assert InOrder(utf8, rs[..i], rs[i]);
      }
    }
    if AllInOrder(utf8, rs[..n]) {
      forall i | 0 <= i < n
        ensures InOrder(utf8, rs[..i], rs[i])
      {
        assert InOrder(utf8, rs[..n][..i], rs[..n][i]);
      }
    }
  }

  lemma FewerFit(rs: seq<Record>)
    requires rs != [] && TallyFits(TallyOf(rs))
    ensures TallyFits(TallyOf(rs[..|rs| - 1]))
  {
    var n := |rs| - 1;
    assert rs == rs[..n] + [rs[n]];
    RecordAdded(rs[..n], rs[n]);
    hide TallyOf;
  }

  lemma NothingMirrored()
    ensures Mirrors([], EMPTY)
  {
    NothingEmitted();
    hide Emitted, Referenced, TallyOf;
    assert UniqueBytes(map[]) == 0;
  }

  // The scan gets through the records exactly when each is in order and no
  // count or sum exceeds 64 bits; its tables then are those of the records.
  lemma {:induction false} FoldExactly(utf8: seq<byte> -> bool, rs: seq<Record>)
    ensures Fold(utf8, rs).Some? <==> AllInOrder(utf8, rs) && TallyFits(TallyOf(rs))
    ensures Fold(utf8, rs).Some? ==> Mirrors(rs, Fold(utf8, rs).value)
  {
    hide ApplyRecord, InOrder, Mirrors, TallyFits, TallyOf, OffsetAfter;
    if rs == [] {
      NothingMirrored();
      NothingFits();
    } else {
      var n := |rs| - 1;
      assert rs == rs[..n] + [rs[n]];
      FoldExactly(utf8, rs[..n]);
      InOrderSnoc(utf8, rs);
      if TallyFits(TallyOf(rs)) {
        FewerFit(rs);
      }
      if Fold(utf8, rs[..n]).Some? {
        hide AllInOrder;
        Step(utf8, rs[..n], Fold(utf8, rs[..n]).value, rs[n], OffsetAfter(rs[..n]));
      }
    }
  }

  lemma NothingFits()
    ensures TallyFits(TallyOf([]))
  {
  }

  // ------------------------------------------------------------- the ending

  lemma FooterBounds(f: Footer, t: Tally)
    requires FooterFits(f) && FooterSays(f, t)
    ensures TallyFits(t)
  {
  }

  lemma EndsExactly(utf8: seq<byte> -> bool, a: Archive)
    requires Fold(utf8, a.records).Some?
    ensures var s := Fold(utf8, a.records).value;
      Conclude(s, a.footer).Some? <==>
        && AllReferenced(a.records) && FilesAreLeaves(a.records)
        && FooterSays(a.footer, TallyOf(a.records))
  {
    hide Fold, Emitted, Referenced, TallyOf, PathsOf, FilePathsOf, Parts, UniqueBytes, TreeConsistent, SizeUnder;
    var s := Fold(utf8, a.records).value;
    FoldExactly(utf8, a.records);
    FoldBalanced(utf8, a.records);
    TreeMeaning(s.paths, s.filePaths);
    assert |s.chunks.Keys| == |s.chunks|;
    assert FilesAreLeaves(a.records) <==> TreeConsistent(s.paths, s.filePaths);
    if AllReferenced(a.records) {
      assert s.referenced == s.chunks.Keys;
    }
    if |s.referenced| == |s.chunks| {
      NoBadStatistics(utf8, a.records);
      assert AllReferenced(a.records);
      assert Statistics(s) == a.footer <==> FooterSays(a.footer, TallyOf(a.records));
    }
  }

  lemma ConcludedCatalog(s: ScanState, footer: Footer)
    ensures Conclude(s, footer).Some? ==>
      Conclude(s, footer) == Some(ArchiveCatalog(s.chunks, s.files, s.directories, footer))
  {
  }

  // An archive scans exactly when its records and footer are acceptable; the
  // catalog then is what the records say.
  lemma AcceptedExactly(utf8: seq<byte> -> bool, a: Archive)
    requires ArchiveFits(a)
    ensures var c := Scanned(utf8, PrintArchive(a));
      && (c.Some? <==> Acceptable(utf8, a))
      && (c.Some? ==> c.value.files == FilesOf(a.records) && c.value.directories == DirectoriesOf(a.records)
                      && c.value.chunks.Keys == Emitted(a.records) && c.value.info == a.footer)
  {
    hide Fold, PrintArchive, ParseArchive, InOrder, Emitted, Referenced, TallyOf, PathsOf, FilePathsOf, FilesOf, DirectoriesOf;
    hide FooterSays, AllReferenced, FilesAreLeaves, Conclude;
    ArchiveCodec(PrintArchive(a), a);
    FoldExactly(utf8, a.records);
    if Fold(utf8, a.records).Some? {
      EndsExactly(utf8, a);
      ConcludedCatalog(Fold(utf8, a.records).value, a.footer);
    }
    if FooterSays(a.footer, TallyOf(a.records)) {
      FooterBounds(a.footer, TallyOf(a.records));
    }
  }

  // The same of bytes: they scan exactly when they print an acceptable archive.
  lemma AcceptedBytes(utf8: seq<byte> -> bool, data: seq<byte>)
    ensures Scanned(utf8, data).Some?
      <==> exists a :: ArchiveFits(a) && data == PrintArchive(a) && Acceptable(utf8, a)
  {
    hide PrintArchive, ParseArchive, CheckArchive, Acceptable, ArchiveFits;
    if Scanned(utf8, data).Some? {
      var a := ParseArchive(data).value;
      ArchiveCodec(data, a);
      AcceptedExactly(utf8, a);
    }
    if a :| ArchiveFits(a) && data == PrintArchive(a) && Acceptable(utf8, a) {
      AcceptedExactly(utf8, a);
    }
  }

  ghost predicate RefersAt(files: seq<FileRecord>, i: nat, k: nat, h: Digest) {
    i < |files| && k < |files[i].chunkHashes| && files[i].chunkHashes[k] == h
  }

  lemma {:induction false} ReferencedByFile(rs: seq<Record>, h: Digest)
    ensures h in Referenced(rs) <==> exists i: nat, k: nat :: RefersAt(FilesOf(rs), i, k, h)
  {
    if rs != [] {
      var n := |rs| - 1;
      var before := FilesOf(rs[..n]);
      ReferencedByFile(rs[..n], h);
      if i: nat, k: nat :| RefersAt(before, i, k, h) {
        assert RefersAt(FilesOf(rs), i, k, h);
      }
      if rs[n].File? && h in rs[n].chunkHashes {
        var k: nat :| k < |rs[n].chunkHashes| && rs[n].chunkHashes[k] == h;
        assert RefersAt(FilesOf(rs), |before|, k, h);
      }
      if i: nat, k: nat :| RefersAt(FilesOf(rs), i, k, h) {
        if i < |before| {
          assert RefersAt(before, i, k, h);
        }
      }
    }
  }

  // The chunks of an accepted archive are exactly those its files refer to.
  lemma ChunksReferenced(utf8: seq<byte> -> bool, data: seq<byte>)
    requires Scanned(utf8, data).Some?
    ensures var c := Scanned(utf8, data).value;
      forall h :: h in c.chunks <==> exists i: nat, k: nat :: RefersAt(c.files, i, k, h)
  {
    hide PrintArchive, ParseArchive, CheckArchive, ArchiveFits, RefersAt, FilesOf, Emitted, Referenced, AllInOrder;
    hide FilesAreLeaves, FooterSays;
    var a := ParseArchive(data).value;
    var c := Scanned(utf8, data).value;
    ArchiveCodec(data, a);
    AcceptedExactly(utf8, a);
    ReferencesKnown(utf8, a.records);
    forall h
      ensures h in c.chunks <==> exists i: nat, k: nat :: RefersAt(c.files, i, k, h)
    {
      ReferencedByFile(a.records, h);
    }
  }

  lemma {:induction false} ReferencesKnown(utf8: seq<byte> -> bool, rs: seq<Record>)
    requires AllInOrder(utf8, rs)
    ensures Referenced(rs) <= Emitted(rs)
  {
    if rs != [] {
      InOrderSnoc(utf8, rs);
      ReferencesKnown(utf8, rs[..|rs| - 1]);
    }
  }
}
