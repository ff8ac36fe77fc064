// The books of the writer: after every run, whatever its paths and whatever
// the hash does, the chunks emitted are those seen and those referenced, and
// the running statistics are what the records say.
module Ledger {
  import opened Bytes
  import opened Sequences
  import opened Format
  import opened Primitives
  import opened Pack
  import opened Chunking

  // The hashes of the chunk records.
  function Emitted(rs: seq<Record>): set<Digest> {
    if rs == [] then {}
    else
      var r := rs[|rs| - 1];
      Emitted(rs[..|rs| - 1]) + (if r.Chunk? then {r.hash} else {})
  }

  // The hashes that file records refer to.
  function Referenced(rs: seq<Record>): set<Digest> {
    if rs == [] then {}
    else
      var r := rs[|rs| - 1];
      Referenced(rs[..|rs| - 1]) + (if r.File? then (set h | h in r.chunkHashes) else {})
  }

  datatype Tally = Tally(
    chunks: nat, chunkBytes: nat, storedBytes: nat, files: nat, directories: nat, references: nat, fileBytes: nat)

  // Counts and sums over records.
  function TallyOf(rs: seq<Record>): Tally {
    if rs == [] then Tally(0, 0, 0, 0, 0, 0, 0)
    else
      var t := TallyOf(rs[..|rs| - 1]);
      match rs[|rs| - 1]
      case Chunk(_, _, originalSize, payload, _) =>
        t.(chunks := t.chunks + 1, chunkBytes := t.chunkBytes + originalSize, storedBytes := t.storedBytes + |payload|)
      case Directory(_, _) => t.(directories := t.directories + 1)
      case File(_, originalSize, _, chunkHashes) =>
        t.(files := t.files + 1, references := t.references + |chunkHashes|, fileBytes := t.fileBytes + originalSize)
  }

  // The eight counters are those of the records; `pending` references of
  // `bytes` bytes belong to a file whose record is still to come.
  predicate Counted(s: PackStats, t: Tally, pending: nat, bytes: nat) {
    && s.entries == t.files + t.directories && s.files == t.files && s.directories == t.directories
    && s.uniqueChunks == t.chunks && s.storedBytes == t.storedBytes
    && s.chunkReferences == t.references + pending
    && s.originalBytes == t.fileBytes
    && s.deduplicatedBytes + t.chunkBytes == t.fileBytes + bytes
  }

  ghost predicate Booked(st: PackState, pending: nat, bytes: nat) {
    && Counted(st.stats, TallyOf(st.records), pending, bytes)
    && Emitted(st.records) == st.contents.Keys
    && TallyOf(st.records).chunks == |st.contents|
  }

  function Members(hs: seq<Digest>): set<Digest> {
    set h | h in hs
  }

  lemma RecordAdded(rs: seq<Record>, r: Record)
    ensures Emitted(rs + [r]) == Emitted(rs) + (if r.Chunk? then {r.hash} else {})
    ensures Referenced(rs + [r]) == Referenced(rs) + (if r.File? then Members(r.chunkHashes) else {})
    ensures var t, t' := TallyOf(rs), TallyOf(rs + [r]);
      match r
      case Chunk(_, _, originalSize, payload, _) =>
        t' == t.(chunks := t.chunks + 1, chunkBytes := t.chunkBytes + originalSize,
                 storedBytes := t.storedBytes + |payload|)
      case Directory(_, _) => t' == t.(directories := t.directories + 1)
      case File(_, originalSize, _, chunkHashes) =>
        t' == t.(files := t.files + 1, references := t.references + |chunkHashes|, fileBytes := t.fileBytes + originalSize)
  {
    assert (rs + [r])[..|rs|] == rs;
  }

  lemma ChunkBooked(p: Primitives, level: nat, st: PackState, c: seq<byte>, pending: nat, bytes: nat)
    requires Booked(st, pending, bytes) && c != [] && PackChunk(p, level, st, c).Some?
    ensures var st' := PackChunk(p, level, st, c).value;
      && Booked(st', pending + 1, bytes + |c|)
      && st'.contents.Keys == st.contents.Keys + {p.hash(c)}
      && Referenced(st'.records) == Referenced(st.records)
  {
    hide Emitted, Referenced, TallyOf, StoredForm;
    if p.hash(c) !in st.contents {
      NewChunkBooked(p, st, c, StoredForm(p, level, c).value);
    }
  }

  lemma NewChunkBooked(p: Primitives, st: PackState, c: seq<byte>, form: (byte, seq<byte>))
    requires p.hash(c) !in st.contents && Emitted(st.records) == st.contents.Keys
    ensures var rs, after := st.records + [ChunkRecord(p, c, form)], st.contents[p.hash(c) := c];
      var t := TallyOf(st.records);
      && Emitted(rs) == after.Keys && |after| == |st.contents| + 1
      && Referenced(rs) == Referenced(st.records)
      && TallyOf(rs) == t.(chunks := t.chunks + 1, chunkBytes := t.chunkBytes + |c|,
                           storedBytes := t.storedBytes + |form.1|)
  {
    hide Emitted, Referenced, TallyOf;
    RecordAdded(st.records, ChunkRecord(p, c, form));
    var after := st.contents[p.hash(c) := c];
    assert after.Keys == st.contents.Keys + {p.hash(c)};
    assert |after.Keys| == |after| && |st.contents.Keys| == |st.contents|;
  }

  lemma {:induction false} ChunksBooked(p: Primitives, level: nat, st: PackState, chunks: seq<seq<byte>>)
    requires Booked(st, 0, 0) && PackChunks(p, level, st, chunks).Some?
    requires forall i :: 0 <= i < |chunks| ==> chunks[i] != []
    ensures var st' := PackChunks(p, level, st, chunks).value;
      && Booked(st', |chunks|, |Flatten(chunks)|)
      && st'.contents.Keys == st.contents.Keys + Members(Hashes(p, chunks))
      && Referenced(st'.records) == Referenced(st.records)
  {
    hide PackChunk, Booked, Referenced;
    if chunks != [] {
      var n := |chunks| - 1;
      ChunksBooked(p, level, st, chunks[..n]);
      ChunkBooked(p, level, PackChunks(p, level, st, chunks[..n]).value, chunks[n], n, |Flatten(chunks[..n])|);
      MembersSnoc(Hashes(p, chunks[..n]), p.hash(chunks[n]));
    }
  }

  lemma MembersSnoc(hs: seq<Digest>, h: Digest)
    ensures Members(hs + [h]) == Members(hs) + {h}
  {
  }

  ghost predicate InBooks(st: PackState) {
    Booked(st, 0, 0) && Referenced(st.records) == st.contents.Keys
  }

  lemma FolderBooked(st: PackState, path: Path)
    requires InBooks(st) && PackFolder(st, path).Some?
    ensures InBooks(PackFolder(st, path).value)
  {
    hide Emitted, Referenced, TallyOf;
    RecordAdded(st.records, Directory(0, path));
  }

  lemma RecordBooked(st: PackState, r: Record, known: set<Digest>)
    requires r.File? && Booked(st, |r.chunkHashes|, r.originalSize) && CloseFile(st, r).Some?
    requires Referenced(st.records) == known && st.contents.Keys == known + Members(r.chunkHashes)
    ensures InBooks(CloseFile(st, r).value)
  {
    hide Emitted, Referenced, TallyOf, Members;
    RecordAdded(st.records, r);
  }

  lemma FileBooked(p: Primitives, level: nat, st: PackState, path: Path, content: seq<byte>)
    requires InBooks(st) && PackFile(p, level, st, path, content).Some?
    ensures InBooks(PackFile(p, level, st, path, content).value)
  {
    hide PackChunks, ChunksFrom, Booked, Referenced, Hashes, Members, Flatten;
    var chunks := Chunks(p.gear, content);
    ChunksOfFile(p.gear, content);
    ChunksBooked(p, level, st, chunks);
    RecordBooked(PackChunks(p, level, st, chunks).value, FileRecordOf(p, path, content), st.contents.Keys);
  }

  lemma {:induction false} RunInBooks(p: Primitives, level: nat, items: seq<Item>)
    requires PackItems(p, level, items).Some?
    ensures InBooks(PackItems(p, level, items).value)
  {
    hide PackFile, PackFolder, StoredPath, InBooks;
    if items == [] {
      BooksOpen();
    } else {
      var n := |items| - 1;
      var st := PackItems(p, level, items[..n]).value;
      RunInBooks(p, level, items[..n]);
      match items[n]
      case Folder(components) => FolderBooked(st, StoredPath(p, components).value);
      case Regular(components, pieces) =>
        FileBooked(p, level, st, StoredPath(p, components).value, Flatten(pieces));
    }
  }

  lemma BooksOpen()
    ensures InBooks(START)
  {
    NothingEmitted();
    hide Emitted, Referenced, TallyOf;
    assert START.records == [] && START.contents == map[];
  }

  lemma NothingEmitted()
    ensures Emitted([]) == {} && Referenced([]) == {} && TallyOf([]) == Tally(0, 0, 0, 0, 0, 0, 0)
  {
  }

  // The books of every run: each distinct chunk is emitted once and is
  // referenced, and the eight counters are those of the records.
  lemma RunBooked(p: Primitives, level: nat, items: seq<Item>)
    requires PackItems(p, level, items).Some?
    ensures var st := PackItems(p, level, items).value;
      && Emitted(st.records) == st.contents.Keys == Referenced(st.records)
      && TallyOf(st.records).chunks == |Emitted(st.records)|
      && Counted(st.stats, TallyOf(st.records), 0, 0)
  {
    hide PackItems, Emitted, Referenced, TallyOf, Counted;
    RunInBooks(p, level, items);
    var st := PackItems(p, level, items).value;
    assert |st.contents.Keys| == |st.contents|;
  }
}
