// Which runs can be packed, told from the walked entries alone, and how each
// chunk of a run is stored.
module Packable {
  import opened Bytes
  import opened Sequences
  import opened Format
  import opened Paths
  import opened Primitives
  import opened Pack
  import opened Ledger
  import opened Chunking

  // The chunks of all files of a run, in order.
  function ChunkRun(p: Primitives, items: seq<Item>): seq<seq<byte>> {
    if items == [] then []
    else
      var n := |items| - 1;
      ChunkRun(p, items[..n]) + if items[n].Regular? then Chunks(p.gear, Flatten(items[n].pieces)) else []
  }

  function TotalBytes(items: seq<Item>): nat {
    if items == [] then 0
    else
      var n := |items| - 1;
      TotalBytes(items[..n]) + if items[n].Regular? then |Flatten(items[n].pieces)| else 0
  }

  // Some names, all of them normal and text, no longer than 1 MiB when joined.
  predicate Nameable(p: Primitives, components: seq<Component>) {
    && components != []
    && (forall i :: 0 <= i < |components| ==> components[i].Normal? && p.utf8(components[i].name))
    && 1 <= |Join(Names(components), SLASH)| <= 1048576
  }

  // A directory, or a file of at most 2^20 chunks, with a path to store.
  predicate Storable(p: Primitives, item: Item) {
    match item
    case WalkError => false
    case Symlink => false
    case Special(_) => false
    case Folder(components) => Nameable(p, components)
    case Regular(components, pieces) =>
      Nameable(p, components) && |Chunks(p.gear, Flatten(pieces))| <= 1048576
  }

  // Chunk i is the first with its hash.
  predicate First(p: Primitives, chunks: seq<seq<byte>>, i: nat) {
    i < |chunks| && forall j :: 0 <= j < i ==> p.hash(chunks[j]) != p.hash(chunks[i])
  }

  // The compressor answers wherever a chunk hash occurs for the first time.
  predicate CompressorAnswers(p: Primitives, level: nat, chunks: seq<seq<byte>>) {
    forall i: nat :: i < |chunks| && First(p, chunks, i) ==> p.compress(level, chunks[i]).Some?
  }

  // -------------------------------------------------------------- one chunk

  // Running totals never exceed the bytes packed so far.
  ghost predicate Lean(st: PackState, bytes: nat) {
    && st.stats.chunkReferences <= st.stats.originalBytes + bytes
    && st.stats.uniqueChunks <= TallyOf(st.records).chunkBytes
    && st.stats.storedBytes <= TallyOf(st.records).chunkBytes
  }

  predicate SameEntries(st: PackState, st': PackState) {
    && st'.stats.entries == st.stats.entries && st'.stats.files == st.stats.files
    && st'.stats.originalBytes == st.stats.originalBytes
  }

  lemma FormBounds(p: Primitives, level: nat, c: seq<byte>)
    ensures StoredForm(p, level, c).Some? <==> p.compress(level, c).Some?
    ensures StoredForm(p, level, c).Some? ==> |StoredForm(p, level, c).value.1| <= |c|
  {
  }

  lemma ChunkPacks(p: Primitives, level: nat, st: PackState, c: seq<byte>, pending: nat, bytes: nat)
    requires Booked(st, pending, bytes) && Lean(st, bytes) && c != []
    requires st.stats.originalBytes + bytes + |c| <= U64_MAX
    ensures PackChunk(p, level, st, c).Some? <==> p.hash(c) in st.contents || p.compress(level, c).Some?
    ensures PackChunk(p, level, st, c).Some? ==>
      var st' := PackChunk(p, level, st, c).value;
      Lean(st', bytes + |c|) && SameEntries(st, st')
  {
    hide Emitted, Referenced, TallyOf, StoredForm;
    FormBounds(p, level, c);
    if p.hash(c) !in st.contents && StoredForm(p, level, c).Some? {
      NewChunkBooked(p, st, c, StoredForm(p, level, c).value);
    }
  }

  // ------------------------------------------------------------- one file

  // The compressor answers for the hashes that are new behind `known`.
  predicate AnswersBehind(p: Primitives, level: nat, known: set<Digest>, chunks: seq<seq<byte>>) {
    forall i: nat :: i < |chunks| && First(p, chunks, i) && p.hash(chunks[i]) !in known
      ==> p.compress(level, chunks[i]).Some?
  }

  lemma {:induction false} HashesAre(p: Primitives, chunks: seq<seq<byte>>, h: Digest)
    ensures h in Members(Hashes(p, chunks)) <==> exists j :: 0 <= j < |chunks| && p.hash(chunks[j]) == h
  {
    if chunks != [] {
      var n := |chunks| - 1;
      HashesAre(p, chunks[..n], h);
      MembersSnoc(Hashes(p, chunks[..n]), p.hash(chunks[n]));
    }
  }

  lemma FirstInFront(p: Primitives, a: seq<seq<byte>>, b: seq<seq<byte>>, i: nat)
    requires i < |a|
    ensures First(p, a + b, i) <==> First(p, a, i)
  {
    assert forall j :: 0 <= j <= i ==> (a + b)[j] == a[j];
    if First(p, a + b, i) {
      forall j | 0 <= j < i
        ensures p.hash(a[j]) != p.hash(a[i])
      {
        assert (a + b)[j] == a[j];
      }
    }
  }

  lemma FirstBehind(p: Primitives, a: seq<seq<byte>>, b: seq<seq<byte>>, i: nat)
    requires i < |b|
    ensures First(p, a + b, |a| + i) <==> First(p, b, i) && p.hash(b[i]) !in Members(Hashes(p, a))
  {
    hide Members, Hashes;
    var all := a + b;
    assert all[|a| + i] == b[i];
    HashesAre(p, a, p.hash(b[i]));
    if First(p, all, |a| + i) {
      forall j | 0 <= j < i
        ensures p.hash(b[j]) != p.hash(b[i])
      {
        assert all[|a| + j] == b[j];
      }
      forall j | 0 <= j < |a|
        ensures p.hash(a[j]) != p.hash(b[i])
      {
        assert all[j] == a[j];
      }
    }
  }

  // Chunks known from before and chunks standing in front are the same.
  lemma AnswersJoin(p: Primitives, level: nat, known: set<Digest>, a: seq<seq<byte>>, b: seq<seq<byte>>)
    ensures AnswersBehind(p, level, known, a + b)
      <==> AnswersBehind(p, level, known, a) && AnswersBehind(p, level, known + Members(Hashes(p, a)), b)
  {
    hide Members, Hashes, First;
    if AnswersBehind(p, level, known, a + b) {
      AnswersApart(p, level, known, a, b);
    }
    if AnswersBehind(p, level, known, a) && AnswersBehind(p, level, known + Members(Hashes(p, a)), b) {
      forall i: nat | i < |a + b| && First(p, a + b, i) && p.hash((a + b)[i]) !in known
        ensures p.compress(level, (a + b)[i]).Some?
      {
        if i < |a| {
          FirstInFront(p, a, b, i);
        } else {
          FirstBehind(p, a, b, i - |a|);
        }
      }
    }
  }

  lemma AnswersApart(p: Primitives, level: nat, known: set<Digest>, a: seq<seq<byte>>, b: seq<seq<byte>>)
    requires AnswersBehind(p, level, known, a + b)
    ensures AnswersBehind(p, level, known, a) && AnswersBehind(p, level, known + Members(Hashes(p, a)), b)
  {
    hide Members, Hashes, First;
    forall i: nat | i < |a| && First(p, a, i) && p.hash(a[i]) !in known
      ensures p.compress(level, a[i]).Some?
    {
      FirstInFront(p, a, b, i);
      assert (a + b)[i] == a[i];
    }
    forall i: nat | i < |b| && First(p, b, i) && p.hash(b[i]) !in known + Members(Hashes(p, a))
      ensures p.compress(level, b[i]).Some?
    {
      FirstBehind(p, a, b, i);
      assert (a + b)[|a| + i] == b[i];
    }
  }

  lemma AnswersSnoc(p: Primitives, level: nat, known: set<Digest>, chunks: seq<seq<byte>>)
    requires chunks != []
    ensures var n := |chunks| - 1;
      AnswersBehind(p, level, known, chunks) <==>
        && AnswersBehind(p, level, known, chunks[..n])
        && (p.hash(chunks[n]) in known + Members(Hashes(p, chunks[..n])) || p.compress(level, chunks[n]).Some?)
  {
    hide Members, Hashes, AnswersBehind;
    var n := |chunks| - 1;
    assert chunks == chunks[..n] + [chunks[n]];
    AnswersJoin(p, level, known, chunks[..n], [chunks[n]]);
    OneAnswer(p, level, known + Members(Hashes(p, chunks[..n])), chunks[n]);
  }

  lemma OneAnswer(p: Primitives, level: nat, known: set<Digest>, c: seq<byte>)
    ensures AnswersBehind(p, level, known, [c]) <==> p.hash(c) in known || p.compress(level, c).Some?
  {
    assert First(p, [c], 0);
  }

  lemma AnswersFromStart(p: Primitives, level: nat, chunks: seq<seq<byte>>)
    ensures CompressorAnswers(p, level, chunks) <==> AnswersBehind(p, level, {}, chunks)
  {
    hide First;
  }

  lemma {:induction false} ChunksPack(p: Primitives, level: nat, st: PackState, chunks: seq<seq<byte>>)
    requires Booked(st, 0, 0) && Lean(st, 0)
    requires forall i :: 0 <= i < |chunks| ==> chunks[i] != []
    requires st.stats.originalBytes + |Flatten(chunks)| <= U64_MAX
    ensures PackChunks(p, level, st, chunks).Some? <==> AnswersBehind(p, level, st.contents.Keys, chunks)
    ensures PackChunks(p, level, st, chunks).Some? ==>
      var st' := PackChunks(p, level, st, chunks).value;
      Lean(st', |Flatten(chunks)|) && SameEntries(st, st')
  {
    hide PackChunk, Booked, Lean, AnswersBehind, Members, Hashes;
    if chunks == [] {
      NoAnswerNeeded(p, level, st.contents.Keys);
    } else {
      var n := |chunks| - 1;
      ChunksPack(p, level, st, chunks[..n]);
      AnswersSnoc(p, level, st.contents.Keys, chunks);
      if PackChunks(p, level, st, chunks[..n]).Some? {
        ChunksBooked(p, level, st, chunks[..n]);
        ChunkPacks(p, level, PackChunks(p, level, st, chunks[..n]).value, chunks[n], n, |Flatten(chunks[..n])|);
      }
    }
  }

  lemma NoAnswerNeeded(p: Primitives, level: nat, known: set<Digest>)
    ensures AnswersBehind(p, level, known, [])
  {
  }

  lemma RecordPacks(st: PackState, r: Record)
    requires r.File? && Booked(st, |r.chunkHashes|, r.originalSize) && Lean(st, r.originalSize)
    ensures CloseFile(st, r).Some? <==>
      st.stats.originalBytes + r.originalSize <= U64_MAX && st.stats.entries + 1 <= U64_MAX
    ensures CloseFile(st, r).Some? ==>
      var st' := CloseFile(st, r).value;
      && Lean(st', 0) && st'.contents == st.contents
      && st'.stats.entries == st.stats.entries + 1
      && st'.stats.originalBytes == st.stats.originalBytes + r.originalSize
  {
    hide Emitted, Referenced, TallyOf, Members;
    RecordAdded(st.records, r);
  }

  lemma FilePacks(p: Primitives, level: nat, st: PackState, path: Path, content: seq<byte>)
    requires InBooks(st) && Lean(st, 0)
    ensures PackFile(p, level, st, path, content).Some? <==>
      && st.stats.originalBytes + |content| <= U64_MAX && st.stats.entries + 1 <= U64_MAX
      && |Chunks(p.gear, content)| <= 1048576
      && AnswersBehind(p, level, st.contents.Keys, Chunks(p.gear, content))
    ensures PackFile(p, level, st, path, content).Some? ==>
      var st' := PackFile(p, level, st, path, content).value;
      && Lean(st', 0)
      && st'.stats.entries == st.stats.entries + 1 && st'.stats.originalBytes == st.stats.originalBytes + |content|
      && st'.contents.Keys == st.contents.Keys + Members(Hashes(p, Chunks(p.gear, content)))
  {
    hide PackChunks, CloseFile, ChunksFrom, AnswersBehind, Booked, Lean, Referenced, Hashes, Members, Flatten, WellSized;
    var chunks := Chunks(p.gear, content);
    ChunksOfFile(p.gear, content);
    ChunksNotEmpty(p, content);
    if st.stats.originalBytes + |content| <= U64_MAX {
      ChunksPack(p, level, st, chunks);
    }
    if PackChunks(p, level, st, chunks).Some? {
      ChunksBooked(p, level, st, chunks);
      if st.stats.originalBytes + |content| <= U64_MAX {
        RecordPacks(PackChunks(p, level, st, chunks).value, FileRecordOf(p, path, content));
      } else {
        TooLong(p, level, st, chunks, FileRecordOf(p, path, content));
      }
    }
  }

  lemma {:induction false} OriginalKept(p: Primitives, level: nat, st: PackState, chunks: seq<seq<byte>>)
    requires PackChunks(p, level, st, chunks).Some?
    ensures PackChunks(p, level, st, chunks).value.stats.originalBytes == st.stats.originalBytes
  {
    hide StoredForm, ChunkRecord;
    if chunks != [] {
      OriginalKept(p, level, st, chunks[..|chunks| - 1]);
    }
  }

  lemma TooLong(p: Primitives, level: nat, st: PackState, chunks: seq<seq<byte>>, r: Record)
    requires PackChunks(p, level, st, chunks).Some? && r.File? && st.stats.originalBytes + r.originalSize > U64_MAX
    ensures CloseFile(PackChunks(p, level, st, chunks).value, r).None?
  {
    hide PackChunks;
    OriginalKept(p, level, st, chunks);
  }

  lemma ChunksNotEmpty(p: Primitives, content: seq<byte>)
    ensures forall i :: 0 <= i < |Chunks(p.gear, content)| ==> Chunks(p.gear, content)[i] != []
  {
    hide ChunksFrom;
    ChunksOfFile(p.gear, content);
  }

  lemma FolderPacks(st: PackState, path: Path)
    requires InBooks(st) && Lean(st, 0)
    ensures PackFolder(st, path).Some? <==> st.stats.entries + 1 <= U64_MAX
    ensures PackFolder(st, path).Some? ==>
      var st' := PackFolder(st, path).value;
      && Lean(st', 0) && st'.stats.entries == st.stats.entries + 1
      && st'.stats.originalBytes == st.stats.originalBytes && st'.contents == st.contents
  {
    hide Emitted, Referenced, TallyOf;
    RecordAdded(st.records, Directory(0, path));
  }

  lemma NamePacks(p: Primitives, components: seq<Component>)
    ensures StoredPath(p, components).Some? <==> Nameable(p, components)
  {
  }

  // ------------------------------------------------------------ a whole run

  ghost predicate Packs(p: Primitives, level: nat, items: seq<Item>) {
    && (forall i :: 0 <= i < |items| ==> Storable(p, items[i]))
    && CompressorAnswers(p, level, ChunkRun(p, items))
    && |items| <= U64_MAX && TotalBytes(items) <= U64_MAX
  }

  ghost predicate Accounts(p: Primitives, items: seq<Item>, st: PackState) {
    && InBooks(st) && Lean(st, 0)
    && st.stats.entries == |items| && st.stats.originalBytes == TotalBytes(items)
    && st.contents.Keys == Members(Hashes(p, ChunkRun(p, items)))
  }

  lemma HashesJoin(p: Primitives, a: seq<seq<byte>>, b: seq<seq<byte>>)
    ensures Members(Hashes(p, a + b)) == Members(Hashes(p, a)) + Members(Hashes(p, b))
  {
    hide Members, Hashes;
    forall h
      ensures h in Members(Hashes(p, a + b)) <==> h in Members(Hashes(p, a)) + Members(Hashes(p, b))
    {
      HashesAre(p, a, h);
      HashesAre(p, b, h);
      HashesAre(p, a + b, h);
      if j :| 0 <= j < |b| && p.hash(b[j]) == h {
        assert (a + b)[|a| + j] == b[j];
      }
      if j :| 0 <= j < |a| && p.hash(a[j]) == h {
        assert (a + b)[j] == a[j];
      }
    }
  }

  lemma RunAnswers(p: Primitives, level: nat, a: seq<seq<byte>>, b: seq<seq<byte>>)
    ensures CompressorAnswers(p, level, a + b)
      <==> CompressorAnswers(p, level, a) && AnswersBehind(p, level, Members(Hashes(p, a)), b)
  {
    hide CompressorAnswers, AnswersBehind, Members, Hashes;
    AnswersFromStart(p, level, a);
    AnswersFromStart(p, level, a + b);
    AnswersJoin(p, level, {}, a, b);
    assert {} + Members(Hashes(p, a)) == Members(Hashes(p, a));
  }

  lemma {:induction false} RunPacks(p: Primitives, level: nat, items: seq<Item>)
    ensures PackItems(p, level, items).Some? <==> Packs(p, level, items)
    ensures PackItems(p, level, items).Some? ==> Accounts(p, items, PackItems(p, level, items).value)
  {
    hide PackItem, Storable, Accounts, CompressorAnswers, Flatten, Chunks;
    if items == [] {
      NothingPacks(p, level);
    } else {
      var n := |items| - 1;
      RunPacks(p, level, items[..n]);
      if Packs(p, level, items) {
        PacksFewer(p, level, items);
      }
      if PackItems(p, level, items[..n]).Some? {
        ItemPacks(p, level, items, PackItems(p, level, items[..n]).value);
      }
    }
  }

  lemma NothingPacks(p: Primitives, level: nat)
    ensures Packs(p, level, []) && Accounts(p, [], START)
  {
    BooksOpen();
    NothingEmitted();
    hide Emitted, Referenced, TallyOf, InBooks;
    assert Hashes(p, []) == [];
  }

  lemma PacksFewer(p: Primitives, level: nat, items: seq<Item>)
    requires items != [] && Packs(p, level, items)
    ensures Packs(p, level, items[..|items| - 1])
  {
    hide CompressorAnswers, Chunks, Flatten, Storable;
    var n := |items| - 1;
    var before := ChunkRun(p, items[..n]);
    RunAnswers(p, level, before, ChunkRun(p, items)[|before|..]);
    assert ChunkRun(p, items) == before + ChunkRun(p, items)[|before|..];
  }

  lemma ItemPacks(p: Primitives, level: nat, items: seq<Item>, st: PackState)
    requires items != [] && Packs(p, level, items[..|items| - 1]) && Accounts(p, items[..|items| - 1], st)
    ensures PackItem(p, level, st, items[|items| - 1]).Some? <==> Packs(p, level, items)
    ensures PackItem(p, level, st, items[|items| - 1]).Some? ==>
      Accounts(p, items, PackItem(p, level, st, items[|items| - 1]).value)
  {
    hide CompressorAnswers, Chunks, Flatten, Nameable, StoredPath, PackFile, PackFolder, InBooks, Lean, Hashes, Members;
    var n := |items| - 1;
    var run := ChunkRun(p, items[..n]);
    match items[n]
    case WalkError =>
    case Symlink =>
    case Special(_) =>
    case Folder(components) =>
      NamePacks(p, components);
      assert run + [] == run;
      if StoredPath(p, components).Some? {
        FolderPacks(st, StoredPath(p, components).value);
        if PackFolder(st, StoredPath(p, components).value).Some? {
          FolderBooked(st, StoredPath(p, components).value);
        }
      }
    case Regular(components, pieces) =>
      var content := Flatten(pieces);
      NamePacks(p, components);
      RunAnswers(p, level, run, Chunks(p.gear, content));
      HashesJoin(p, run, Chunks(p.gear, content));
      if StoredPath(p, components).Some? {
        FilePacks(p, level, st, StoredPath(p, components).value, content);
        if PackFile(p, level, st, StoredPath(p, components).value, content).Some? {
          FileBooked(p, level, st, StoredPath(p, components).value, content);
        }
      }
  }

  // A run packs exactly when the level is 1 to 22, every entry can be stored,
  // the compressor answers, and entries and bytes can be counted in 64 bits.
  lemma PacksExactly(p: Primitives, level: nat, items: seq<Item>)
    ensures Packed(p, level, items).Some? <==>
      && 1 <= level <= 22
      && (forall i :: 0 <= i < |items| ==> Storable(p, items[i]))
      && CompressorAnswers(p, level, ChunkRun(p, items))
      && |items| <= U64_MAX && TotalBytes(items) <= U64_MAX
  {
    hide PackItems, Storable, CompressorAnswers, TotalBytes, ChunkRun, Accounts;
    RunPacks(p, level, items);
  }

  // So any run of directories and of files up to 64 GiB packs, if the
  // compressor never fails.
  lemma UsualRunsPack(p: Primitives, level: nat, items: seq<Item>)
    requires 1 <= level <= 22 && |items| <= U64_MAX && TotalBytes(items) <= U64_MAX
    requires forall data :: p.compress(level, data).Some?
    requires forall i :: 0 <= i < |items| ==>
      || (items[i].Folder? && Nameable(p, items[i].components))
      || (items[i].Regular? && Nameable(p, items[i].components)
          && |Flatten(items[i].pieces)| <= 64 * 1024 * 1024 * 1024)
    ensures Packed(p, level, items).Some?
  {
    hide PackItems, Nameable, TotalBytes, ChunkRun, Packed, First, ChunksFrom, Flatten;
    PacksExactly(p, level, items);
    forall i | 0 <= i < |items|
      ensures Storable(p, items[i])
    {
      if items[i].Regular? {
        ChunkLimit(p.gear, Flatten(items[i].pieces));
      }
    }
  }

  // --------------------------------------------------------- stored chunks

  // The record of a chunk holds its size and hash and, of its compressed and
  // its plain form, the shorter; the plain one if they are equally long.
  ghost predicate Stores(p: Primitives, level: nat, r: Record, c: seq<byte>) {
    && r.Chunk? && r.hash == p.hash(c) && r.originalSize == |c|
    && var z := p.compress(level, c);
       && z.Some?
       && (|z.value| < |c| ==> r.compression == 1 && r.payload == z.value)
       && (|z.value| >= |c| ==> r.compression == 0 && r.payload == c)
  }

  ghost predicate AllStored(p: Primitives, level: nat, rs: seq<Record>, run: seq<seq<byte>>) {
    forall j :: 0 <= j < |rs| && rs[j].Chunk? ==> exists c :: c in run && Stores(p, level, rs[j], c)
  }

  lemma ChunkStored(p: Primitives, level: nat, st: PackState, c: seq<byte>, run: seq<seq<byte>>)
    requires AllStored(p, level, st.records, run) && PackChunk(p, level, st, c).Some?
    ensures AllStored(p, level, PackChunk(p, level, st, c).value.records, run + [c])
  {
    hide Stores;
    var rs' := PackChunk(p, level, st, c).value.records;
    forall j | 0 <= j < |rs'| && rs'[j].Chunk?
      ensures exists x :: x in run + [c] && Stores(p, level, rs'[j], x)
    {
      if j < |st.records| {
        var x :| x in run && Stores(p, level, st.records[j], x);
        assert x in run + [c];
      } else {
        RecordStores(p, level, c);
        assert c in run + [c];
      }
    }
  }

  lemma RecordStores(p: Primitives, level: nat, c: seq<byte>)
    requires StoredForm(p, level, c).Some?
    ensures Stores(p, level, ChunkRecord(p, c, StoredForm(p, level, c).value), c)
  {
  }

  lemma {:induction false} ChunksStored(p: Primitives, level: nat, st: PackState, chunks: seq<seq<byte>>, run: seq<seq<byte>>)
    requires AllStored(p, level, st.records, run) && PackChunks(p, level, st, chunks).Some?
    ensures AllStored(p, level, PackChunks(p, level, st, chunks).value.records, run + chunks)
  {
    hide PackChunk, AllStored;
    if chunks == [] {
      assert run + chunks == run;
    } else {
      var n := |chunks| - 1;
      ChunksStored(p, level, st, chunks[..n], run);
      ChunkStored(p, level, PackChunks(p, level, st, chunks[..n]).value, chunks[n], run + chunks[..n]);
      assert (run + chunks[..n]) + [chunks[n]] == run + chunks;
    }
  }

  lemma StoredWith(p: Primitives, level: nat, rs: seq<Record>, r: Record, run: seq<seq<byte>>)
    requires AllStored(p, level, rs, run) && !r.Chunk?
    ensures AllStored(p, level, rs + [r], run)
  {
    hide Stores;
  }

  // Every chunk record of a run holds some chunk of it.
  lemma {:induction false} RunStored(p: Primitives, level: nat, items: seq<Item>)
    requires PackItems(p, level, items).Some?
    ensures AllStored(p, level, PackItems(p, level, items).value.records, ChunkRun(p, items))
  {
    hide PackChunks, AllStored, Chunks, StoredPath, Flatten, Hashes;
    if items == [] {
      NothingStored(p, level);
    } else {
      var n := |items| - 1;
      var st, run := PackItems(p, level, items[..n]).value, ChunkRun(p, items[..n]);
      RunStored(p, level, items[..n]);
      match items[n]
      case Folder(components) =>
        assert run + [] == run;
        StoredWith(p, level, st.records, Directory(0, StoredPath(p, components).value), run);
      case Regular(components, pieces) =>
        var chunks := Chunks(p.gear, Flatten(pieces));
        ChunksStored(p, level, st, chunks, run);
        StoredWith(p, level, PackChunks(p, level, st, chunks).value.records,
                 FileRecordOf(p, StoredPath(p, components).value, Flatten(pieces)), run + chunks);
    }
  }

  lemma NothingStored(p: Primitives, level: nat)
    ensures AllStored(p, level, START.records, [])
  {
  }
}
