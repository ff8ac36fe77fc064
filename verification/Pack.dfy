// The archive writer: what it emits for a list of walked entries, as a
// function, and the step-by-step methods that emit it.
module Pack {
  import opened Bytes
  import opened Sequences
  import opened Format
  import opened FormatCodec
  import opened FormatIO
  import opened Paths
  import opened Primitives
  import Chunker
  import opened Chunking

  // What the directory walk yields, in its order. A file is the list of
  // results of reading it until the end.
  datatype Item =
    | WalkError
    | Symlink
    | Special(components: seq<Component>)
    | Folder(components: seq<Component>)
    | Regular(components: seq<Component>, pieces: seq<seq<byte>>)

  datatype PackStats = PackStats(
    entries: nat, files: nat, directories: nat, originalBytes: nat,
    storedBytes: nat, uniqueChunks: nat, chunkReferences: nat, deduplicatedBytes: nat)

  const NO_STATS := PackStats(0, 0, 0, 0, 0, 0, 0, 0)

  // A run in progress: the records emitted, the distinct chunks among them by
  // hash, and the running statistics.
  datatype PackState = PackState(records: seq<Record>, contents: map<Digest, seq<byte>>, stats: PackStats)

  const START := PackState([], map[], NO_STATS)

  // ---------------------------------------------------------- specification

  // How a distinct chunk is stored: compressed only if that is shorter.
  function StoredForm(p: Primitives, level: nat, data: seq<byte>): Option<(byte, seq<byte>)> {
    var compressed := p.compress(level, data);
    if compressed.None? then None
    else if |compressed.value| < |data| then Some((COMPRESSION_ZSTD, compressed.value))
    else Some((COMPRESSION_STORE, data))
  }

  function ChunkRecord(p: Primitives, data: seq<byte>, form: (byte, seq<byte>)): Record {
    Chunk(form.0, [0, 0, 0], |data|, form.1, p.hash(data))
  }

  function PackChunk(p: Primitives, level: nat, st: PackState, data: seq<byte>): Option<PackState> {
    if data == [] then Some(st)
    else if st.stats.chunkReferences + 1 > U64_MAX then None
    else
      var counted := st.stats.(chunkReferences := st.stats.chunkReferences + 1);
      if p.hash(data) in st.contents then
        if counted.deduplicatedBytes + |data| > U64_MAX then None
        else Some(st.(stats := counted.(deduplicatedBytes := counted.deduplicatedBytes + |data|)))
      else EmitChunk(p, level, st, counted, data)
  }

  function EmitChunk(p: Primitives, level: nat, st: PackState, counted: PackStats, data: seq<byte>): Option<PackState> {
    var form := StoredForm(p, level, data);
    if form.None? || counted.uniqueChunks + 1 > U64_MAX || counted.storedBytes + |form.value.1| > U64_MAX then None
    else Some(PackState(st.records + [ChunkRecord(p, data, form.value)],
                        st.contents[p.hash(data) := data],
                        counted.(uniqueChunks := counted.uniqueChunks + 1,
                                 storedBytes := counted.storedBytes + |form.value.1|)))
  }

  function PackChunks(p: Primitives, level: nat, st: PackState, chunks: seq<seq<byte>>): Option<PackState> {
    if chunks == [] then Some(st)
    else
      var n := |chunks| - 1;
      var before := PackChunks(p, level, st, chunks[..n]);
      if before.None? then None else PackChunk(p, level, before.value, chunks[n])
  }

  function Hashes(p: Primitives, chunks: seq<seq<byte>>): (hs: seq<Digest>)
    ensures |hs| == |chunks|
  {
    if chunks == [] then [] else Hashes(p, chunks[..|chunks| - 1]) + [p.hash(chunks[|chunks| - 1])]
  }

  function FileRecordOf(p: Primitives, path: Path, content: seq<byte>): Record {
    File(path, |content|, p.hash(content), Hashes(p, Chunks(p.gear, content)))
  }

  function PackFile(p: Primitives, level: nat, st: PackState, path: Path, content: seq<byte>): Option<PackState> {
    var chunks := Chunks(p.gear, content);
    var chunked := PackChunks(p, level, st, chunks);
    if |content| > U64_MAX || chunked.None? || |chunks| > MAX_CHUNKS_PER_FILE then None
    else CloseFile(chunked.value, FileRecordOf(p, path, content))
  }

  function CloseFile(st: PackState, r: Record): Option<PackState>
    requires r.File?
  {
    if st.stats.entries + 1 > U64_MAX || st.stats.files + 1 > U64_MAX
      || st.stats.originalBytes + r.originalSize > U64_MAX then None
    else Some(st.(records := st.records + [r],
                  stats := st.stats.(entries := st.stats.entries + 1, files := st.stats.files + 1,
                                     originalBytes := st.stats.originalBytes + r.originalSize)))
  }

  function PackFolder(st: PackState, path: Path): Option<PackState> {
    if st.stats.entries + 1 > U64_MAX || st.stats.directories + 1 > U64_MAX then None
    else Some(st.(records := st.records + [Directory(0, path)],
                  stats := st.stats.(entries := st.stats.entries + 1, directories := st.stats.directories + 1)))
  }

  function StoredPath(p: Primitives, components: seq<Component>): Option<Path> {
    var path := Normalized(p.utf8, components);
    if path.None? || !PathFits(path.value) then None else path
  }

  function PackItem(p: Primitives, level: nat, st: PackState, item: Item): Option<PackState> {
    match item
    case WalkError => None
    case Symlink => None
    case Special(_) => None
    case Folder(components) =>
      var path := StoredPath(p, components);
      if path.None? then None else PackFolder(st, path.value)
    case Regular(components, pieces) =>
      var path := StoredPath(p, components);
      if path.None? then None else PackFile(p, level, st, path.value, Flatten(pieces))
  }

  function PackItems(p: Primitives, level: nat, items: seq<Item>): Option<PackState> {
    if items == [] then Some(START)
    else
      var n := |items| - 1;
      var before := PackItems(p, level, items[..n]);
      if before.None? then None else PackItem(p, level, before.value, items[n])
  }

  function FooterOf(s: PackStats): Footer {
    Footer(s.entries, s.files, s.directories, s.uniqueChunks, s.chunkReferences,
           s.originalBytes, s.storedBytes, s.deduplicatedBytes)
  }

  predicate LevelAllowed(level: nat) {
    1 <= level <= 22
  }

  // The archive packed from the walked items.
  function Packed(p: Primitives, level: nat, items: seq<Item>): Option<Archive> {
    var st := PackItems(p, level, items);
    if !LevelAllowed(level) || st.None? then None
    else Some(Archive(0, 0, st.value.records, FooterOf(st.value.stats)))
  }

  lemma {:induction false} PackChunksPrefix(p: Primitives, level: nat, st: PackState, a: seq<seq<byte>>, b: seq<seq<byte>>)
    requires PackChunks(p, level, st, a + b).Some?
    ensures PackChunks(p, level, st, a).Some?
  {
    hide PackChunk;
    if b == [] {
      assert a + b == a;
    } else {
      assert (a + b)[..|a + b| - 1] == a + b[..|b| - 1];
      PackChunksPrefix(p, level, st, a, b[..|b| - 1]);
    }
  }

  lemma PackChunksSnoc(p: Primitives, level: nat, st: PackState, chunks: seq<seq<byte>>, c: seq<byte>)
    ensures PackChunks(p, level, st, chunks + [c]) ==
      if PackChunks(p, level, st, chunks).None? then None
      else PackChunk(p, level, PackChunks(p, level, st, chunks).value, c)
  {
    hide PackChunk;
    assert (chunks + [c])[..|chunks|] == chunks;
  }

  lemma HashesSnoc(p: Primitives, chunks: seq<seq<byte>>, c: seq<byte>)
    ensures Hashes(p, chunks + [c]) == Hashes(p, chunks) + [p.hash(c)]
  {
    assert (chunks + [c])[..|chunks|] == chunks;
  }

  // --------------------------------------------------------------- packing

  class Packer {
    const p: Primitives
    const level: nat
    const sink: Sink
    var seen: set<Digest>
    var stats: PackStats
    // The run so far, as the specification has it.
    ghost var state: PackState

    ghost predicate Valid()
      reads this, sink
    {
      && sink.out == PrintHeader(0, 0) + PrintRecords(state.records)
      && seen == state.contents.Keys
      && stats == state.stats
    }

    constructor (p: Primitives, level: nat)
      ensures Valid() && fresh(sink) && state == START
      ensures this.p == p && this.level == level
    {
      this.p := p;
      this.level := level;
      sink := new Sink();
      seen := {};
      stats := NO_STATS;
      state := START;
      new;
      WriteHeader(sink, 0);
    }

    // Appends one chunk to the file being packed: a reference if its hash has
    // been seen, otherwise also a record. Empty chunks are skipped.
    method WriteOrReferenceChunk(data: seq<byte>, chunkHashes: seq<Digest>) returns (r: Result<seq<Digest>>)
      requires Valid()
      modifies this, sink
      ensures r.Ok? <==> PackChunk(p, level, old(state), data).Some?
      ensures r.Ok? ==>
        && Valid() && state == PackChunk(p, level, old(state), data).value
        && r.value == chunkHashes + (if data == [] then [] else [p.hash(data)])
    {
      hide PrintRecords, ChunkHeaderBytes, PrintHeader;
      if data == [] {
        return Ok(chunkHashes);
      }
      var hash := p.hash(data);
      var references := CheckedAdd(stats.chunkReferences, 1);
      if references.None? {
        return Err(Overflow);
      }
      stats := stats.(chunkReferences := references.value);
      if hash in seen {
        var saved := CheckedAdd(stats.deduplicatedBytes, |data|);
        if saved.None? {
          return Err(Overflow);
        }
        stats := stats.(deduplicatedBytes := saved.value);
        state := PackChunk(p, level, state, data).value;
        return Ok(chunkHashes + [hash]);
      }
      seen := seen + {hash};
      var emitted := Emit(data, hash);
      if emitted.Err? {
        return Err(emitted.error);
      }
      r := Ok(chunkHashes + [hash]);
    }

    // Writes the record of a chunk seen for the first time.
    method Emit(data: seq<byte>, hash: Digest) returns (r: Result<()>)
      requires hash == p.hash(data) && hash !in state.contents
      requires sink.out == PrintHeader(0, 0) + PrintRecords(state.records)
      requires seen == state.contents.Keys + {hash}
      modifies this, sink
      ensures r.Ok? <==> EmitChunk(p, level, old(state), old(stats), data).Some?
      ensures r.Ok? ==> Valid() && state == EmitChunk(p, level, old(state), old(stats), data).value
    {
      hide PrintRecords, PrintRecord, PrintHeader, ChunkHeaderBytes;
      var compressed := p.compress(level, data);
      if compressed.None? {
        return Err(Corrupt);
      }
      var compression, payload := COMPRESSION_STORE, data;
      if |compressed.value| < |data| {
        compression, payload := COMPRESSION_ZSTD, compressed.value;
      }
      ghost var record := ChunkRecord(p, data, (compression, payload));
      PrintRecordsSnoc(state.records, record);
      WriteChunkHeader(sink, compression, |data|, |payload|, hash);
      sink.WriteAll(payload);
      assert sink.out == old(sink.out) + PrintRecord(record) by {
        ChunkRecordPrint(p, data, (compression, payload));
      }
      var unique, stored := CheckedAdd(stats.uniqueChunks, 1), CheckedAdd(stats.storedBytes, |payload|);
      if unique.None? || stored.None? {
        return Err(Overflow);
      }
      ghost var before := stats;
      stats := stats.(uniqueChunks := unique.value, storedBytes := stored.value);
      state := EmitChunk(p, level, state, before, data).value;
      r := Ok(());
    }

    // Pushes one byte: into the pending chunk, then into the hasher, and cuts
    // if the boundary condition holds.
    method PushByte(rolling: Chunker.RollingHash, chunk: seq<byte>, chunkHashes: seq<Digest>, b: byte,
                    ghost base: PackState, ghost content: seq<byte>, ghost emitted: seq<seq<byte>>)
      returns (r: Result<(seq<byte>, seq<Digest>)>, ghost emitted': seq<seq<byte>>)
      requires Valid() && rolling.Valid() && rolling.gear == p.gear
      requires Cutting(p, level, base, content, emitted, rolling.history, chunk, chunkHashes, state)
      requires |rolling.history| < |content| && b == content[|rolling.history|]
      modifies this, sink, rolling, rolling.window
      ensures rolling.Valid() && rolling.history == old(rolling.history) + [b]
      ensures r.Ok? ==> Valid() && Cutting(p, level, base, content, emitted', rolling.history, r.value.0, r.value.1, state)
      ensures r.Err? ==> PackChunks(p, level, base, Chunks(p.gear, content)).None?
    {
      hide PrintRecords, PrintRecord, PrintHeader, PackChunk, PackChunks, Hashes, Chunker.StateAfter, Cutting;
      CuttingStep(p, level, base, content, emitted, rolling.history, chunk, chunkHashes, state);
      var grown := chunk + [b];
      var hash := rolling.Push(b);
      if Chunker.ShouldCut(hash, |grown|) {
        emitted' := emitted + [grown];
        var written := WriteOrReferenceChunk(grown, chunkHashes);
        if written.Err? {
          return Err(written.error), emitted';
        }
        r := Ok(([], written.value));
      } else {
        emitted' := emitted;
        r := Ok((grown, chunkHashes));
      }
    }

    method PushBytes(rolling: Chunker.RollingHash, chunk: seq<byte>, chunkHashes: seq<Digest>, bytes: seq<byte>,
                     ghost base: PackState, ghost content: seq<byte>, ghost emitted: seq<seq<byte>>)
      returns (r: Result<(seq<byte>, seq<Digest>)>, ghost emitted': seq<seq<byte>>)
      requires Valid() && rolling.Valid() && rolling.gear == p.gear
      requires Cutting(p, level, base, content, emitted, rolling.history, chunk, chunkHashes, state)
      requires rolling.history + bytes <= content
      modifies this, sink, rolling, rolling.window
      ensures r.Ok? ==> rolling.Valid() && rolling.history == old(rolling.history) + bytes
      ensures r.Ok? ==> Valid() && Cutting(p, level, base, content, emitted', rolling.history, r.value.0, r.value.1, state)
      ensures r.Err? ==> PackChunks(p, level, base, Chunks(p.gear, content)).None?
    {
      hide Valid, Chunker.RollingHash.Valid, PackChunks, Chunks, Cutting;
      var pending, hashes := chunk, chunkHashes;
      emitted' := emitted;
      var i := 0;
      while i < |bytes|
        invariant i <= |bytes| && Valid() && rolling.Valid()
        invariant rolling.history == old(rolling.history) + bytes[..i]
        invariant Cutting(p, level, base, content, emitted', rolling.history, pending, hashes, state)
      {
        NextByte(old(rolling.history), bytes, content, i);
        var pushed;
        pushed, emitted' := PushByte(rolling, pending, hashes, bytes[i], base, content, emitted');
        if pushed.Err? {
          return pushed, emitted';
        }
        pending, hashes := pushed.value.0, pushed.value.1;
        i := i + 1;
      }
      assert bytes[..i] == bytes;
      r := Ok((pending, hashes));
    }

    // Cuts a whole file into chunks from the results of reading it, and packs
    // every chunk.
    method AddChunks(pieces: seq<seq<byte>>) returns (r: Result<seq<Digest>>)
      requires Valid()
      modifies this, sink
      ensures r.Err? ==> |Flatten(pieces)| > U64_MAX
                         || PackChunks(p, level, old(state), Chunks(p.gear, Flatten(pieces))).None?
      ensures r.Ok? ==>
        && |Flatten(pieces)| <= U64_MAX
        && Valid() && PackChunks(p, level, old(state), Chunks(p.gear, Flatten(pieces))) == Some(state)
        && r.value == Hashes(p, Chunks(p.gear, Flatten(pieces)))
    {
      hide Valid, Chunker.RollingHash.Valid, PackChunk, PackChunks, Hashes, Chunks, Cutting, Flatten;
      ghost var base, content, emitted: seq<seq<byte>> := state, Flatten(pieces), [];
      var rolling := new Chunker.RollingHash(p.gear);
      var chunk: seq<byte>, chunkHashes: seq<Digest> := [], [];
      var fileSize: nat := 0;
      CuttingStarts(p, level, state, content);
      FlattenEmpty(pieces);
      var i := 0;
      while i < |pieces|
        invariant i <= |pieces| && Valid() && rolling.Valid() && rolling.gear == p.gear
        invariant fresh(rolling) && fresh(rolling.window)
        invariant rolling.history == Flatten(pieces[..i]) && fileSize == |rolling.history| <= U64_MAX
        invariant Cutting(p, level, base, content, emitted, rolling.history, chunk, chunkHashes, state)
      {
        PrefixGrows(pieces, i);
        var size := CheckedAdd(fileSize, |pieces[i]|);
        if size.None? {
          return Err(Overflow);
        }
        fileSize := size.value;
        var pushed;
        pushed, emitted := PushBytes(rolling, chunk, chunkHashes, pieces[i], base, content, emitted);
        if pushed.Err? {
          return Err(pushed.error);
        }
        chunk, chunkHashes := pushed.value.0, pushed.value.1;
        i := i + 1;
      }
      assert pieces[..i] == pieces;
      CuttingEnds(p, level, base, content, emitted, chunk, chunkHashes, state);
      if chunk != [] {
        r := WriteOrReferenceChunk(chunk, chunkHashes);
      } else {
        r := Ok(chunkHashes);
      }
    }

    // Writes the header, the path and the references of a file.
    method WriteFileRecord(path: Path, content: seq<byte>, chunkHashes: seq<Digest>)
      requires Valid()
      modifies sink
      ensures sink.out == old(sink.out) + PrintRecord(File(path, |content|, p.hash(content), chunkHashes))
    {
      hide PrintRecords, PrintHeader, FileHeaderBytes, Flatten;
      FlattenNone(chunkHashes);
      WriteFileHeader(sink, |path|, |chunkHashes|, |content|, p.hash(content));
      sink.WriteAll(path);
      ghost var lead := sink.out;
      var i := 0;
      while i < |chunkHashes|
        invariant i <= |chunkHashes| && sink.out == lead + Flatten(chunkHashes[..i])
      {
        sink.WriteAll(chunkHashes[i]);
        TakeOneMore(chunkHashes, i);
        FlattenSnoc(chunkHashes[..i], chunkHashes[i]);
        i := i + 1;
      }
      assert chunkHashes[..i] == chunkHashes;
    }

    method AddFile(path: Path, pieces: seq<seq<byte>>) returns (r: Result<()>)
      requires Valid()
      modifies this, sink
      ensures r.Ok? <==> PackFile(p, level, old(state), path, Flatten(pieces)).Some?
      ensures r.Ok? ==> Valid() && state == PackFile(p, level, old(state), path, Flatten(pieces)).value
    {
      hide PrintRecords, PrintRecord, PrintHeader, PackChunks, Hashes, ChunksFrom, Flatten;
      var content := Flatten(pieces);
      HashesLength(p, Chunks(p.gear, content));
      var hashes := AddChunks(pieces);
      if hashes.Err? {
        return Err(hashes.error);
      }
      if |hashes.value| > U32_MAX || |hashes.value| > MAX_CHUNKS_PER_FILE {
        return Err(BadRecord);
      }
      WriteFileRecord(path, content, hashes.value);
      PrintRecordsSnoc(state.records, FileRecordOf(p, path, content));
      var entries, files := CheckedAdd(stats.entries, 1), CheckedAdd(stats.files, 1);
      var originalBytes := CheckedAdd(stats.originalBytes, |content|);
      if entries.None? || files.None? || originalBytes.None? {
        return Err(Overflow);
      }
      stats := stats.(entries := entries.value, files := files.value, originalBytes := originalBytes.value);
      state := CloseFile(state, FileRecordOf(p, path, content)).value;
      r := Ok(());
    }

    method AddFolder(path: Path) returns (r: Result<()>)
      requires Valid()
      modifies this, sink
      ensures r.Ok? <==> PackFolder(old(state), path).Some?
      ensures r.Ok? ==> Valid() && state == PackFolder(old(state), path).value
    {
      hide PrintRecords, PrintHeader, DirectoryHeaderBytes;
      WriteDirectoryHeader(sink, |path|);
      sink.WriteAll(path);
      PrintRecordsSnoc(state.records, Directory(0, path));
      var entries, directories := CheckedAdd(stats.entries, 1), CheckedAdd(stats.directories, 1);
      if entries.None? || directories.None? {
        return Err(Overflow);
      }
      stats := stats.(entries := entries.value, directories := directories.value);
      state := PackFolder(state, path).value;
      r := Ok(());
    }

    method AddItem(item: Item) returns (r: Result<()>)
      requires Valid()
      modifies this, sink
      ensures r.Ok? <==> PackItem(p, level, old(state), item).Some?
      ensures r.Ok? ==> Valid() && state == PackItem(p, level, old(state), item).value
    {
      hide PrintRecords, PrintHeader, Normalized, PackFile, PackFolder;
      if item.WalkError? {
        return Err(InvalidInput);
      }
      if item.Symlink? {
        return Err(Unsupported);
      }
      var path := NormalizeRelativePath(p.utf8, item.components);
      if path.Err? {
        return Err(path.error);
      }
      if |path.value| == 0 || |path.value| > MAX_PATH_BYTES {
        return Err(BadPath);
      }
      match item {
        case Folder(_) =>
          r := AddFolder(path.value);
        case Regular(_, pieces) =>
          r := AddFile(path.value, pieces);
        case _ =>
          r := Err(Unsupported);
      }
    }
  }

  // Packs the walked items; succeeds exactly when the specification does, with
  // exactly its bytes.
  method PackToWriter(p: Primitives, level: nat, items: seq<Item>) returns (r: Result<(seq<byte>, Footer)>)
    ensures r.Ok? <==> Packed(p, level, items).Some?
    ensures r.Ok? ==>
      && r.value.0 == PrintArchive(Packed(p, level, items).value)
      && r.value.1 == Packed(p, level, items).value.footer
  {
    hide PrintRecords, PrintHeader, PrintFooter, PackItem;
    if level < 1 || level > 22 {
      return Err(InvalidInput);
    }
    var packer := new Packer(p, level);
    var i := 0;
    assert items[..0] == [];
    while i < |items|
      invariant i <= |items| && packer.Valid() && fresh(packer) && fresh(packer.sink)
      invariant packer.p == p && packer.level == level
      invariant PackItems(p, level, items[..i]) == Some(packer.state)
    {
      assert items[..i + 1][..i] == items[..i];
      var added := packer.AddItem(items[i]);
      if added.Err? {
        PackItemsPrefix(p, level, items, i + 1);
        return Err(added.error);
      }
      i := i + 1;
    }
    assert items[..i] == items;
    var footer := FooterOf(packer.stats);
    WriteFooter(packer.sink, footer);
    r := Ok((packer.sink.out, footer));
  }

  lemma {:induction false} PackItemsPrefix(p: Primitives, level: nat, items: seq<Item>, i: nat)
    requires i <= |items| && PackItems(p, level, items[..i]).None?
    ensures PackItems(p, level, items).None?
  {
    hide PackItem;
    if i == |items| {
      assert items[..i] == items;
    } else {
      var init := items[..|items| - 1];
      assert init[..i] == items[..i];
      PackItemsPrefix(p, level, init, i);
    }
  }

  lemma NextByte(history: seq<byte>, bytes: seq<byte>, content: seq<byte>, i: nat)
    requires history + bytes <= content && i < |bytes|
    ensures var seen := history + bytes[..i];
      && |seen| < |content| && content[|seen|] == bytes[i]
      && seen + [bytes[i]] == history + bytes[..i + 1]
  {
    assert content[|history| + i] == (history + bytes)[|history| + i];
    TakeOneMore(bytes, i);
  }

  lemma FlattenNone(hashes: seq<Digest>)
    ensures Flatten(hashes[..0]) == []
  {
  }

  lemma FlattenEmpty(pieces: seq<seq<byte>>)
    ensures Flatten(pieces[..0]) == []
  {
  }

  lemma PrefixGrows(pieces: seq<seq<byte>>, i: nat)
    requires i < |pieces|
    ensures Flatten(pieces[..i + 1]) == Flatten(pieces[..i]) + pieces[i] <= Flatten(pieces)
  {
    hide Flatten;
    TakeOneMore(pieces, i);
    FlattenSnoc(pieces[..i], pieces[i]);
    TakeDrop(pieces, i + 1);
    FlattenAppend(pieces[..i + 1], pieces[i + 1..]);
  }

  lemma {:induction false} HashesLength(p: Primitives, chunks: seq<seq<byte>>)
    ensures |Hashes(p, chunks)| == |chunks|
  {
  }

  lemma CuttingStarts(p: Primitives, level: nat, state: PackState, content: seq<byte>)
    ensures Cutting(p, level, state, content, [], [], [], [], state)
  {
    hide ChunksFrom;
    assert content[0..] == content;
    assert [] + Chunks(p.gear, content) == Chunks(p.gear, content);
  }

  lemma CuttingEnds(p: Primitives, level: nat, base: PackState, content: seq<byte>, emitted: seq<seq<byte>>,
                    chunk: seq<byte>, chunkHashes: seq<Digest>, state: PackState)
    requires Cutting(p, level, base, content, emitted, content, chunk, chunkHashes, state)
    ensures var all := Chunks(p.gear, content);
      if chunk == [] then PackChunks(p, level, base, all) == Some(state) && chunkHashes == Hashes(p, all)
      else PackChunks(p, level, base, all) == PackChunk(p, level, state, chunk)
           && chunkHashes + [p.hash(chunk)] == Hashes(p, all)
  {
    hide PackChunk, PackChunks, Hashes;
    assert content[|content|..] == [];
    if chunk == [] {
      assert emitted + [] == emitted;
    } else {
      PackChunksSnoc(p, level, base, emitted, chunk);
      HashesSnoc(p, emitted, chunk);
    }
  }

  // Part of a file has been pushed: the chunks already cut, then those still
  // to come, are the file's chunks, and the run has packed the former.
  ghost predicate Cutting(p: Primitives, level: nat, base: PackState, content: seq<byte>,
                          emitted: seq<seq<byte>>, history: seq<byte>, chunk: seq<byte>,
                          chunkHashes: seq<Digest>, state: PackState)
  {
    && history <= content
    && Chunks(p.gear, content) == emitted + ChunksFrom(p.gear, history, chunk, content[|history|..])
    && PackChunks(p, level, base, emitted) == Some(state)
    && chunkHashes == Hashes(p, emitted)
  }

  lemma CuttingStep(p: Primitives, level: nat, base: PackState, content: seq<byte>,
                    emitted: seq<seq<byte>>, history: seq<byte>, chunk: seq<byte>,
                    chunkHashes: seq<Digest>, state: PackState)
    requires Cutting(p, level, base, content, emitted, history, chunk, chunkHashes, state)
    requires |history| < |content|
    ensures var b := content[|history|];
      var seen, grown := history + [b], chunk + [b];
      if Chunker.ShouldCut(Chunker.StateAfter(p.gear, seen), |grown|) then
        var packed := PackChunk(p, level, state, grown);
        if packed.Some? then
          Cutting(p, level, base, content, emitted + [grown], seen, [], chunkHashes + [p.hash(grown)], packed.value)
        else PackChunks(p, level, base, Chunks(p.gear, content)).None?
      else Cutting(p, level, base, content, emitted, seen, grown, chunkHashes, state)
  {
    hide PackChunk, PackChunks, Hashes, Chunker.StateAfter, Chunker.ShouldCut;
    var b := content[|history|];
    var seen, grown := history + [b], chunk + [b];
    var rest := content[|history|..];
    assert rest[0] == b && rest[1..] == content[|seen|..];
    assert seen <= content;
    if Chunker.ShouldCut(Chunker.StateAfter(p.gear, seen), |grown|) {
      var tail := ChunksFrom(p.gear, seen, [], rest[1..]);
      assert emitted + ([grown] + tail) == (emitted + [grown]) + tail;
      PackChunksSnoc(p, level, base, emitted, grown);
      HashesSnoc(p, emitted, grown);
      if PackChunks(p, level, base, Chunks(p.gear, content)).Some? {
        PackChunksPrefix(p, level, base, emitted + [grown], tail);
      }
    }
  }

  lemma ChunkRecordPrint(p: Primitives, data: seq<byte>, form: (byte, seq<byte>))
    ensures PrintRecord(ChunkRecord(p, data, form))
         == ChunkHeaderBytes(form.0, [0, 0, 0], |data|, |form.1|, p.hash(data)) + form.1
  {
  }
}
