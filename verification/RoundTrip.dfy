// Scanning what was packed: when it is accepted, and that the catalog and the
// statistics are those of the packed entries.
module RoundTrip {
  import opened Bytes
  import opened Sequences
  import opened Format
  import opened Paths
  import opened Primitives
  import opened Pack
  import opened Catalog
  import opened Soundness
  import Chunker
  import opened Chunking

  // ------------------------------------------------------- runs in progress

  // Every chunk record emitted so far is the stored form of a chunk listed
  // under its hash, and the listed chunks have the sizes the scan recorded.
  ghost predicate Linked(p: Primitives, level: nat, st: PackState, s: ScanState) {
    && Fold(p.utf8, st.records) == Some(s)
    && s.chunks.Keys == st.contents.Keys
    && (forall h :: h in st.contents ==>
          && p.hash(st.contents[h]) == h
          && 1 <= |st.contents[h]| <= Chunker.MAX_CHUNK_SIZE
          && s.chunks[h].originalSize == |st.contents[h]|)
    && (forall i :: 0 <= i < |st.records| && st.records[i].Chunk? ==> Stored(p, level, st.contents, st.records[i]))
  }

  ghost predicate Stored(p: Primitives, level: nat, contents: map<Digest, seq<byte>>, r: Record)
    requires r.Chunk?
  {
    && r.hash in contents
    && StoredForm(p, level, contents[r.hash]).Some?
    && r == ChunkRecord(p, contents[r.hash], StoredForm(p, level, contents[r.hash]).value)
  }

  predicate Bounded(s: PackStats) {
    && s.entries <= U64_MAX && s.files <= U64_MAX && s.directories <= U64_MAX && s.originalBytes <= U64_MAX
    && s.storedBytes <= U64_MAX && s.uniqueChunks <= U64_MAX && s.chunkReferences <= U64_MAX
    && s.deduplicatedBytes <= U64_MAX
  }

  // The writer's counters against the reader's, while a file whose chunks so
  // far are `done` is being packed; `s` does not know of the file yet.
  ghost predicate Agrees(st: PackState, s: ScanState, done: seq<seq<byte>>) {
    && Bounded(st.stats)
    && st.stats.entries == s.entries && st.stats.files == s.fileCount && st.stats.directories == s.directoryCount
    && st.stats.originalBytes == s.originalBytes == s.logicalBytes
    && st.stats.storedBytes == s.storedBytes
    && st.stats.uniqueChunks == |s.chunks|
    && st.stats.chunkReferences == s.chunkReferences + |done|
    && UniqueBytes(s.chunks) + st.stats.deduplicatedBytes == s.originalBytes + |Flatten(done)|
  }

  function HashSet(p: Primitives, chunks: seq<seq<byte>>): set<Digest> {
    if chunks == [] then {} else HashSet(p, chunks[..|chunks| - 1]) + {p.hash(chunks[|chunks| - 1])}
  }

  // Every chunk already packed is listed under its hash.
  ghost predicate Listed(p: Primitives, st: PackState, done: seq<seq<byte>>) {
    forall i :: 0 <= i < |done| ==> p.hash(done[i]) in st.contents && st.contents[p.hash(done[i])] == done[i]
  }

  // The state of both sides inside a file.
  ghost predicate Inside(p: Primitives, level: nat, st: PackState, s: ScanState, done: seq<seq<byte>>) {
    && Linked(p, level, st, s)
    && Agrees(st, s, done)
    && Listed(p, st, done)
    && s.chunks.Keys == s.referenced + HashSet(p, done)
  }

  // ---------------------------------------------------------------- chunks

  lemma StoredFormValid(p: Primitives, level: nat, data: seq<byte>)
    requires p.Lawful() && 1 <= |data| <= Chunker.MAX_CHUNK_SIZE && StoredForm(p, level, data).Some?
    ensures var (compression, payload) := StoredForm(p, level, data).value;
      ValidChunk(compression, |data|, |payload|) && |payload| <= |data|
  {
  }

  ghost predicate Known(p: Primitives, st: PackState, universe: set<seq<byte>>) {
    forall h :: h in st.contents ==> st.contents[h] in universe
  }

  lemma ReferenceStep(p: Primitives, level: nat, st: PackState, s: ScanState, done: seq<seq<byte>>, c: seq<byte>,
                      universe: set<seq<byte>>)
    requires Inside(p, level, st, s, done) && PackChunk(p, level, st, c).Some?
    requires c != [] && p.hash(c) in st.contents
    requires p.InjectiveOn(universe) && Known(p, st, universe) && c in universe
    ensures Inside(p, level, PackChunk(p, level, st, c).value, s, done + [c])
  {
    hide Fold, StoredForm, UniqueBytes, Flatten, HashSet;
    var after := PackChunk(p, level, st, c).value;
    assert p.hash(st.contents[p.hash(c)]) == p.hash(c);
    FlattenSnoc(done, c);
    HashSetSnoc(p, done, c);
    assert Linked(p, level, after, s);
  }

  lemma HashSetSnoc(p: Primitives, done: seq<seq<byte>>, c: seq<byte>)
    ensures HashSet(p, done + [c]) == HashSet(p, done) + {p.hash(c)}
  {
    assert (done + [c])[..|done|] == done;
  }

  // What the reader makes of a chunk record emitted next.
  function AfterChunk(s: ScanState, st: PackState, hash: Digest, size: nat, form: (byte, seq<byte>)): ScanState {
    var meta := ChunkMeta(form.0, size, |form.1|, OffsetAfter(st.records) + CHUNK_HEADER_SIZE);
    s.(chunks := s.chunks[hash := meta], storedBytes := s.storedBytes + |form.1|)
  }

  lemma NewChunkAccepted(p: Primitives, level: nat, st: PackState, s: ScanState, c: seq<byte>, form: (byte, seq<byte>))
    requires p.Lawful() && Fold(p.utf8, st.records) == Some(s)
    requires 1 <= |c| <= Chunker.MAX_CHUNK_SIZE && StoredForm(p, level, c) == Some(form)
    requires p.hash(c) !in s.chunks && s.storedBytes + |form.1| <= U64_MAX
    ensures Fold(p.utf8, st.records + [ChunkRecord(p, c, form)]) == Some(AfterChunk(s, st, p.hash(c), |c|, form))
  {
    hide Fold, StoredForm, OffsetAfter;
    StoredFormValid(p, level, c);
    FoldSnoc(p.utf8, st.records, ChunkRecord(p, c, form));
  }

  lemma NewChunkCounted(st: PackState, st': PackState, s: ScanState, done: seq<seq<byte>>, c: seq<byte>,
                        hash: Digest, form: (byte, seq<byte>))
    requires Agrees(st, s, done) && hash !in s.chunks
    requires st'.stats == st.stats.(chunkReferences := st.stats.chunkReferences + 1,
                                    uniqueChunks := st.stats.uniqueChunks + 1,
                                    storedBytes := st.stats.storedBytes + |form.1|)
    requires Bounded(st'.stats)
    ensures Agrees(st', AfterChunk(s, st, hash, |c|, form), done + [c])
  {
    hide UniqueBytes, Flatten, OffsetAfter;
    UniqueBytesExtend(s.chunks, hash,
                      ChunkMeta(form.0, |c|, |form.1|, OffsetAfter(st.records) + CHUNK_HEADER_SIZE));
    FlattenSnoc(done, c);
  }

  lemma NewChunkStep(p: Primitives, level: nat, st: PackState, s: ScanState, done: seq<seq<byte>>, c: seq<byte>)
    returns (s': ScanState)
    requires p.Lawful() && Inside(p, level, st, s, done) && PackChunk(p, level, st, c).Some?
    requires 1 <= |c| <= Chunker.MAX_CHUNK_SIZE && p.hash(c) !in st.contents
    ensures Inside(p, level, PackChunk(p, level, st, c).value, s', done + [c])
    ensures s' == s.(chunks := s'.chunks, storedBytes := s'.storedBytes)
  {
    hide Fold, StoredForm, Agrees, HashSet, OffsetAfter;
    var after := PackChunk(p, level, st, c).value;
    var form := StoredForm(p, level, c).value;
    assert Bounded(st.stats) && st.stats.storedBytes == s.storedBytes by {
      AgreesBounded(st, s, done);
    }
    NewChunkAccepted(p, level, st, s, c, form);
    NewChunkCounted(st, after, s, done, c, p.hash(c), form);
    HashSetSnoc(p, done, c);
    s' := AfterChunk(s, st, p.hash(c), |c|, form);
    LinkedStep(p, level, st, s, c, form, after, s');
    ListedStep(p, st, after, done, c);
  }

  lemma AgreesBounded(st: PackState, s: ScanState, done: seq<seq<byte>>)
    requires Agrees(st, s, done)
    ensures Bounded(st.stats) && st.stats.storedBytes == s.storedBytes
  {
  }

  lemma LinkedStep(p: Primitives, level: nat, st: PackState, s: ScanState, c: seq<byte>, form: (byte, seq<byte>),
                   st': PackState, s': ScanState)
    requires Linked(p, level, st, s) && p.hash(c) !in st.contents && 1 <= |c| <= Chunker.MAX_CHUNK_SIZE
    requires StoredForm(p, level, c) == Some(form)
    requires st'.records == st.records + [ChunkRecord(p, c, form)] && st'.contents == st.contents[p.hash(c) := c]
    requires Fold(p.utf8, st'.records) == Some(s')
    requires s'.chunks.Keys == s.chunks.Keys + {p.hash(c)} && s'.chunks[p.hash(c)].originalSize == |c|
    requires forall h :: h in s.chunks ==> s'.chunks[h] == s.chunks[h]
    ensures Linked(p, level, st', s')
  {
    hide Fold, StoredForm;
  }

  lemma ListedStep(p: Primitives, st: PackState, st': PackState, done: seq<seq<byte>>, c: seq<byte>)
    requires Listed(p, st, done) && p.hash(c) !in st.contents && st'.contents == st.contents[p.hash(c) := c]
    ensures Listed(p, st', done + [c])
  {
  }

  // Packing the chunks of one file keeps writer and reader in step.
  lemma {:induction false} ChunksStep(p: Primitives, level: nat, base: PackState, s0: ScanState,
                                      chunks: seq<seq<byte>>, universe: set<seq<byte>>)
    returns (s: ScanState)
    requires p.Lawful() && p.InjectiveOn(universe)
    requires Inside(p, level, base, s0, []) && Known(p, base, universe)
    requires PackChunks(p, level, base, chunks).Some?
    requires forall i :: 0 <= i < |chunks| ==> 1 <= |chunks[i]| <= Chunker.MAX_CHUNK_SIZE && chunks[i] in universe
    ensures var st := PackChunks(p, level, base, chunks).value;
      Inside(p, level, st, s, chunks) && Known(p, st, universe)
    ensures s == s0.(chunks := s.chunks, storedBytes := s.storedBytes)
  {
    hide Inside, PackChunk;
    if chunks == [] {
      s := s0;
    } else {
      var n := |chunks| - 1;
      var init, c := chunks[..n], chunks[n];
      var before := PackChunks(p, level, base, init).value;
      var s1 := ChunksStep(p, level, base, s0, init, universe);
      assert chunks == init + [c];
      KnownStep(p, level, before, c, universe);
      if p.hash(c) in before.contents {
        ReferenceStep(p, level, before, s1, init, c, universe);
        s := s1;
      } else {
        s := NewChunkStep(p, level, before, s1, init, c);
      }
    }
  }

  lemma KnownStep(p: Primitives, level: nat, st: PackState, c: seq<byte>, universe: set<seq<byte>>)
    requires Known(p, st, universe) && c in universe && PackChunk(p, level, st, c).Some?
    ensures Known(p, PackChunk(p, level, st, c).value, universe)
  {
    hide StoredForm;
  }

  // ----------------------------------------------------------------- files

  lemma {:induction false} ResolveHashes(p: Primitives, s: ScanState, chunks: seq<seq<byte>>)
    requires forall i :: 0 <= i < |chunks| ==>
      p.hash(chunks[i]) in s.chunks && s.chunks[p.hash(chunks[i])].originalSize == |chunks[i]|
    requires s.logicalBytes + |Flatten(chunks)| <= U64_MAX && s.chunkReferences + |chunks| <= U64_MAX
    ensures Resolve(s, Hashes(p, chunks)) == Some(RefTotals(|Flatten(chunks)|, s.logicalBytes + |Flatten(chunks)|,
              s.chunkReferences + |chunks|, s.referenced + HashSet(p, chunks)))
  {
    if chunks != [] {
      var n := |chunks| - 1;
      var init, c := chunks[..n], chunks[n];
      ResolveHashes(p, s, init);
      var hashes := Hashes(p, chunks);
      assert hashes[..n] == Hashes(p, init) && hashes[n] == p.hash(c);
      assert (s.referenced + HashSet(p, init)) + {p.hash(c)} == s.referenced + HashSet(p, chunks);
    } else {
      assert s.referenced + HashSet(p, chunks) == s.referenced;
    }
  }

  function FileEntry(p: Primitives, path: Path, content: seq<byte>): FileRecord {
    FileRecord(path, |content|, p.hash(content), Hashes(p, Chunks(p.gear, content)))
  }

  // What the reader makes of the file record.
  function AfterFile(s: ScanState, f: FileRecord, referenced: set<Digest>): ScanState {
    s.(paths := s.paths + {f.path}, filePaths := s.filePaths + {f.path}, referenced := referenced,
       logicalBytes := s.logicalBytes + f.originalSize, chunkReferences := s.chunkReferences + |f.chunkHashes|,
       originalBytes := s.originalBytes + f.originalSize, files := s.files + [f],
       entries := s.entries + 1, fileCount := s.fileCount + 1)
  }

  // Between two entries: writer and reader agree, and every chunk is
  // referenced.
  ghost predicate InStep(p: Primitives, level: nat, st: PackState, s: ScanState) {
    Linked(p, level, st, s) && Agrees(st, s, []) && s.chunks.Keys == s.referenced
  }

  lemma FileAccepted(p: Primitives, level: nat, st: PackState, s: ScanState, path: Path, content: seq<byte>)
    requires var chunks := Chunks(p.gear, content);
      Inside(p, level, st, s, chunks) && |chunks| <= MAX_CHUNKS_PER_FILE
    requires CloseFile(st, FileRecordOf(p, path, content)).Some?
    ensures var st' := CloseFile(st, FileRecordOf(p, path, content)).value;
      var s' := AfterFile(s, FileEntry(p, path, content), s.chunks.Keys);
      if NewPath(p.utf8, s, path) then InStep(p, level, st', s')
      else Fold(p.utf8, st'.records).None?
  {
    hide Linked, Agrees, Fold, ChunksFrom, ValidPath, HashSet, CloseFile, FileEntry;
    var chunks := Chunks(p.gear, content);
    var record := FileRecordOf(p, path, content);
    var st' := CloseFile(st, record).value;
    ChunksOfFile(p.gear, content);
    FileFolded(p, level, st, s, path, content);
    if NewPath(p.utf8, s, path) {
      FileCounted(p, st, st', s, path, content);
      FileLinked(p, level, st, st', s, AfterFile(s, FileEntry(p, path, content), s.chunks.Keys));
    }
  }

  lemma FileFolded(p: Primitives, level: nat, st: PackState, s: ScanState, path: Path, content: seq<byte>)
    requires var chunks := Chunks(p.gear, content);
      Inside(p, level, st, s, chunks) && |chunks| <= MAX_CHUNKS_PER_FILE && Flatten(chunks) == content
    requires CloseFile(st, FileRecordOf(p, path, content)).Some?
    ensures var st' := CloseFile(st, FileRecordOf(p, path, content)).value;
      && st'.contents == st.contents && st'.records == st.records + [FileRecordOf(p, path, content)]
      && Fold(p.utf8, st'.records) ==
           if NewPath(p.utf8, s, path) then Some(AfterFile(s, FileEntry(p, path, content), s.chunks.Keys)) else None
  {
    hide Fold, Stored, StoredForm, UniqueBytes, Chunks, ValidPath, Resolve, Hashes, HashSet, OffsetAfter, Flatten;
    var chunks := Chunks(p.gear, content);
    FoldSnoc(p.utf8, st.records, FileRecordOf(p, path, content));
    ResolveHashes(p, s, chunks);
  }

  lemma FileCounted(p: Primitives, st: PackState, st': PackState, s: ScanState, path: Path, content: seq<byte>)
    requires var chunks := Chunks(p.gear, content);
      Agrees(st, s, chunks) && Flatten(chunks) == content
    requires CloseFile(st, FileRecordOf(p, path, content)) == Some(st')
    ensures Agrees(st', AfterFile(s, FileEntry(p, path, content), s.chunks.Keys), [])
  {
    hide UniqueBytes, Chunks, Hashes, Flatten;
    FlattenNothing();
  }

  lemma FileLinked(p: Primitives, level: nat, st: PackState, st': PackState, s: ScanState, s': ScanState)
    requires Linked(p, level, st, s) && Fold(p.utf8, st'.records) == Some(s')
    requires st'.contents == st.contents && s'.chunks == s.chunks
    requires st.records <= st'.records && |st'.records| == |st.records| + 1 && st'.records[|st.records|].File?
    ensures Linked(p, level, st', s')
  {
    hide Fold, Stored;
  }

  lemma FlattenNothing()
    ensures Flatten<byte>([]) == []
  {
  }

  // ----------------------------------------------------------------- items

  // The chunks of all files of a run.
  function RunChunks(p: Primitives, items: seq<Item>): set<seq<byte>> {
    if items == [] then {}
    else
      var n := |items| - 1;
      RunChunks(p, items[..n]) + ItemChunks(p, items[n])
  }

  function ItemChunks(p: Primitives, item: Item): set<seq<byte>> {
    if item.Regular? then (set c | c in Chunks(p.gear, Flatten(item.pieces))) else {}
  }

  // Walked names are real names: not empty, no '/', not "." or "..".
  predicate PlatformItem(item: Item) {
    (item.Folder? || item.Regular?) ==>
      forall i :: 0 <= i < |item.components| && item.components[i].Normal? ==> PlatformName(item.components[i].name)
  }

  predicate Recordable(item: Item) {
    item.Folder? || item.Regular?
  }

  // The stored path of a packed entry.
  function PathOf(p: Primitives, item: Item): Path
    requires Recordable(item) && StoredPath(p, item.components).Some?
  {
    StoredPath(p, item.components).value
  }

  // What a reader should list for the packed items.
  datatype Listing = Listing(files: seq<FileRecord>, directories: seq<Path>)

  function ListingOf(p: Primitives, level: nat, items: seq<Item>): Listing
    requires PackItems(p, level, items).Some?
  {
    if items == [] then Listing([], [])
    else
      var n := |items| - 1;
      var before := ListingOf(p, level, items[..n]);
      match items[n]
      case Folder(components) => before.(directories := before.directories + [PathOf(p, items[n])])
      case Regular(components, pieces) =>
        before.(files := before.files + [FileEntry(p, PathOf(p, items[n]), Flatten(pieces))])
  }

  function ListedPaths(p: Primitives, level: nat, items: seq<Item>): seq<Path>
    requires PackItems(p, level, items).Some?
  {
    if items == [] then []
    else
      var n := |items| - 1;
      ListedPaths(p, level, items[..n]) + [PathOf(p, items[n])]
  }

  // No backslash in a path and no path twice: what the reader asks of the
  // paths one by one.
  predicate PathsUsable(paths: seq<Path>) {
    && (forall i :: 0 <= i < |paths| ==> BACKSLASH !in paths[i])
    && (forall i, j :: 0 <= i < j < |paths| ==> paths[i] != paths[j])
  }

  lemma {:induction false} JoinIsText(p: Primitives, names: seq<seq<byte>>)
    requires p.Lawful() && |names| >= 1
    requires forall i :: 0 <= i < |names| ==> p.utf8(names[i])
    ensures p.utf8(Join(names, SLASH))
  {
    if |names| > 1 {
      JoinIsText(p, names[1..]);
    }
  }

  // A stored path passes the reader's checks unless it holds a backslash or
  // has been seen.
  lemma StoredPathAccepted(p: Primitives, components: seq<Component>, s: ScanState)
    requires p.Lawful() && StoredPath(p, components).Some?
    requires forall i :: 0 <= i < |components| && components[i].Normal? ==> PlatformName(components[i].name)
    ensures var path := StoredPath(p, components).value;
      NewPath(p.utf8, s, path) <==> BACKSLASH !in path && path !in s.paths
  {
    hide ValidPath;
    NormalizedIsValid(p.utf8, components);
    JoinIsText(p, Names(components));
  }

  // The reader's side of a run: in step with the writer and listing what was
  // packed.
  ghost predicate Follows(p: Primitives, level: nat, items: seq<Item>, s: ScanState)
    requires PackItems(p, level, items).Some?
  {
    && InStep(p, level, PackItems(p, level, items).value, s)
    && s.files == ListingOf(p, level, items).files && s.directories == ListingOf(p, level, items).directories
    && (forall path :: path in s.paths <==> path in ListedPaths(p, level, items))
    && s.filePaths == FilePaths(s.files)
  }

  function FilePaths(files: seq<FileRecord>): set<Path> {
    if files == [] then {} else FilePaths(files[..|files| - 1]) + {files[|files| - 1].path}
  }

  // ------------------------------------------------------- the whole run

  lemma {:induction false} ChunksGrow(p: Primitives, level: nat, st: PackState, chunks: seq<seq<byte>>)
    requires PackChunks(p, level, st, chunks).Some?
    ensures st.records <= PackChunks(p, level, st, chunks).value.records
  {
    hide StoredForm, ChunkRecord;
    if chunks != [] {
      ChunksGrow(p, level, st, chunks[..|chunks| - 1]);
    }
  }

  lemma ItemGrows(p: Primitives, level: nat, st: PackState, item: Item)
    requires PackItem(p, level, st, item).Some?
    ensures st.records <= PackItem(p, level, st, item).value.records
  {
    hide PackChunks, Normalized, ChunksFrom;
    if item.Regular? {
      ChunksGrow(p, level, st, Chunks(p.gear, Flatten(item.pieces)));
    }
  }

  lemma {:induction false} ChunksKnown(p: Primitives, level: nat, st: PackState, chunks: seq<seq<byte>>,
                                       universe: set<seq<byte>>)
    requires Known(p, st, universe) && PackChunks(p, level, st, chunks).Some?
    requires forall i :: 0 <= i < |chunks| ==> chunks[i] in universe
    ensures Known(p, PackChunks(p, level, st, chunks).value, universe)
  {
    hide PackChunk;
    if chunks != [] {
      var n := |chunks| - 1;
      ChunksKnown(p, level, st, chunks[..n], universe);
      KnownStep(p, level, PackChunks(p, level, st, chunks[..n]).value, chunks[n], universe);
    }
  }

  lemma {:induction false} RunKnown(p: Primitives, level: nat, items: seq<Item>, universe: set<seq<byte>>)
    requires PackItems(p, level, items).Some? && RunChunks(p, items) <= universe
    ensures Known(p, PackItems(p, level, items).value, universe)
  {
    hide PackChunks, Normalized, ChunksFrom;
    if items != [] {
      var n := |items| - 1;
      var st, item := PackItems(p, level, items[..n]).value, items[n];
      RunKnown(p, level, items[..n], universe);
      if item.Regular? {
        ChunksKnown(p, level, st, Chunks(p.gear, Flatten(item.pieces)), universe);
      }
    }
  }

  lemma UsableSnoc(paths: seq<Path>, path: Path)
    ensures PathsUsable(paths + [path]) <==> PathsUsable(paths) && BACKSLASH !in path && path !in paths
  {
    var more := paths + [path];
    if PathsUsable(more) {
      forall i | 0 <= i < |paths|
        ensures paths[i] == more[i]
      {
      }
      assert more[|paths|] == path;
    }
  }

  lemma FolderAccepted(p: Primitives, level: nat, st: PackState, s: ScanState, path: Path)
    requires InStep(p, level, st, s) && PackFolder(st, path).Some?
    ensures var st' := PackFolder(st, path).value;
      var s' := s.(paths := s.paths + {path}, directories := s.directories + [path],
                   entries := s.entries + 1, directoryCount := s.directoryCount + 1);
      if NewPath(p.utf8, s, path) then InStep(p, level, st', s') else Fold(p.utf8, st'.records).None?
  {
    hide Fold, Stored, StoredForm, UniqueBytes, ValidPath, OffsetAfter, Flatten;
    FoldSnoc(p.utf8, st.records, Directory(0, path));
  }

  lemma FileStep(p: Primitives, level: nat, st: PackState, s: ScanState, path: Path, content: seq<byte>,
                 universe: set<seq<byte>>)
    returns (s': ScanState)
    requires p.Lawful() && p.InjectiveOn(universe) && Known(p, st, universe)
    requires InStep(p, level, st, s) && PackFile(p, level, st, path, content).Some?
    requires forall c :: c in Chunks(p.gear, content) ==> c in universe
    ensures var st' := PackFile(p, level, st, path, content).value;
      if NewPath(p.utf8, s, path) then
        && InStep(p, level, st', s')
        && s'.files == s.files + [FileEntry(p, path, content)] && s'.directories == s.directories
        && s'.paths == s.paths + {path} && s'.filePaths == s.filePaths + {path}
      else Fold(p.utf8, st'.records).None?
  {
    hide Linked, Agrees, Fold, PackChunks, ChunksFrom, ValidPath, CloseFile, FileRecordOf;
    var chunks := Chunks(p.gear, content);
    ChunksOfFile(p.gear, content);
    assert s.referenced + HashSet(p, []) == s.referenced;
    var s1 := ChunksStep(p, level, st, s, chunks, universe);
    var st1 := PackChunks(p, level, st, chunks).value;
    FileAccepted(p, level, st1, s1, path, content);
    s' := AfterFile(s1, FileEntry(p, path, content), s1.chunks.Keys);
  }

  // The reader follows the writer through the whole run exactly when every
  // path is usable.
  lemma {:induction false} Run(p: Primitives, level: nat, items: seq<Item>, universe: set<seq<byte>>)
    returns (s: ScanState)
    requires p.Lawful() && PackItems(p, level, items).Some?
    requires p.InjectiveOn(universe) && RunChunks(p, items) <= universe
    requires forall i :: 0 <= i < |items| ==> PlatformItem(items[i])
    ensures if PathsUsable(ListedPaths(p, level, items)) then Follows(p, level, items, s)
            else Fold(p.utf8, PackItems(p, level, items).value.records).None?
  {
    hide InStep, Fold, PathsUsable, PackItem, PackFile, PackFolder, StoredPath, NewPath;
    if items == [] {
      s := EMPTY;
      RunStarts(p, level);
    } else {
      var n := |items| - 1;
      var init, item := items[..n], items[n];
      var st := PackItems(p, level, init).value;
      var s0 := Run(p, level, init, universe);
      PackedEntry(p, level, st, item);
      UsableSnoc(ListedPaths(p, level, init), PathOf(p, item));
      if PathsUsable(ListedPaths(p, level, init)) {
        RunKnown(p, level, init, universe);
        s := RunStep(p, level, items, s0, universe);
      } else {
        s := EMPTY;
        ItemGrows(p, level, st, item);
        Unrecovered(p, st.records, PackItems(p, level, items).value.records);
      }
    }
  }

  lemma PackedEntry(p: Primitives, level: nat, st: PackState, item: Item)
    requires PackItem(p, level, st, item).Some?
    ensures Recordable(item) && StoredPath(p, item.components).Some?
  {
    hide StoredPath, PackFile, PackFolder;
  }

  lemma Unrecovered(p: Primitives, a: seq<Record>, b: seq<Record>)
    requires a <= b && Fold(p.utf8, a).None?
    ensures Fold(p.utf8, b).None?
  {
    hide Fold;
    assert b == a + b[|a|..];
    if Fold(p.utf8, b).Some? {
      FoldPrefix(p.utf8, a, b[|a|..]);
    }
  }

  lemma RunStarts(p: Primitives, level: nat)
    ensures PathsUsable(ListedPaths(p, level, [])) && Follows(p, level, [], EMPTY)
  {
    hide UniqueBytes, Flatten;
    NothingPacked();
    FlattenNothing();
  }

  lemma NothingPacked()
    ensures UniqueBytes(map[]) == 0
  {
  }

  lemma RunStep(p: Primitives, level: nat, items: seq<Item>, s0: ScanState, universe: set<seq<byte>>)
    returns (s: ScanState)
    requires p.Lawful() && items != [] && PackItems(p, level, items).Some?
    requires p.InjectiveOn(universe) && RunChunks(p, items) <= universe
    requires PlatformItem(items[|items| - 1])
    requires Known(p, PackItems(p, level, items[..|items| - 1]).value, universe)
    requires Follows(p, level, items[..|items| - 1], s0)
    ensures var path := PathOf(p, items[|items| - 1]);
      if BACKSLASH !in path && path !in s0.paths then Follows(p, level, items, s)
      else Fold(p.utf8, PackItems(p, level, items).value.records).None?
  {
    hide InStep, Fold, PackFile, PackFolder, StoredPath, NewPath;
    var n := |items| - 1;
    var st, item := PackItems(p, level, items[..n]).value, items[n];
    var path := PathOf(p, item);
    StoredPathAccepted(p, item.components, s0);
    match item {
      case Folder(_) =>
        FolderAccepted(p, level, st, s0, path);
        s := s0.(paths := s0.paths + {path}, directories := s0.directories + [path],
                 entries := s0.entries + 1, directoryCount := s0.directoryCount + 1);
      case Regular(_, pieces) =>
        s := FileStep(p, level, st, s0, path, Flatten(pieces), universe);
    }
  }
}
