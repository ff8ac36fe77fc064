// The full round trip: pack, scan, read.
module ReadBack {
  import opened Bytes
  import opened Sequences
  import opened Format
  import opened FormatCodec
  import opened Paths
  import opened Primitives
  import opened Pack
  import opened Catalog
  import Soundness
  import opened Reprint
  import opened RoundTrip
  import opened Reconstruct
  import Chunker
  import opened Chunking

  // --------------------------------------------------------- fitting fields

  lemma {:induction false} ChunksFit(p: Primitives, level: nat, st: PackState, chunks: seq<seq<byte>>)
    requires AllFit(st.records) && Bounded(st.stats) && PackChunks(p, level, st, chunks).Some?
    requires forall i :: 0 <= i < |chunks| ==> |chunks[i]| <= Chunker.MAX_CHUNK_SIZE
    ensures var st' := PackChunks(p, level, st, chunks).value;
      AllFit(st'.records) && Bounded(st'.stats)
  {
    if chunks != [] {
      ChunksFit(p, level, st, chunks[..|chunks| - 1]);
    }
  }

  lemma {:induction false} RunFits(p: Primitives, level: nat, items: seq<Item>)
    requires PackItems(p, level, items).Some?
    ensures var st := PackItems(p, level, items).value;
      AllFit(st.records) && Bounded(st.stats)
  {
    hide PackChunks, Normalized, ChunksFrom;
    if items != [] {
      var n := |items| - 1;
      var st, item := PackItems(p, level, items[..n]).value, items[n];
      RunFits(p, level, items[..n]);
      if item.Regular? {
        var content := Flatten(item.pieces);
        ChunksOfFile(p.gear, content);
        ChunksFit(p, level, st, Chunks(p.gear, content));
      }
    }
  }

  lemma PackedFits(p: Primitives, level: nat, items: seq<Item>)
    requires Packed(p, level, items).Some?
    ensures ArchiveFits(Packed(p, level, items).value)
  {
    hide PackItems;
    RunFits(p, level, items);
  }

  // ---------------------------------------------------------------- scanning

  // What the reader asks of the paths of a run: none holds a backslash, none
  // occurs twice, and no file is above another entry.
  ghost predicate PathsAccepted(p: Primitives, level: nat, items: seq<Item>)
    requires PackItems(p, level, items).Some?
  {
    var paths := ListedPaths(p, level, items);
    && PathsUsable(paths)
    && TreeConsistent((set path | path in paths), FilePaths(ListingOf(p, level, items).files))
  }

  // A packed run is accepted by the scan exactly when its paths are; the
  // catalog then lists the packed directories and files in order, and the
  // statistics the writer kept are those the reader recomputes.
  lemma PackedScans(p: Primitives, level: nat, items: seq<Item>)
    requires p.Lawful() && Packed(p, level, items).Some?
    requires p.InjectiveOn(RunChunks(p, items))
    requires forall i :: 0 <= i < |items| ==> PlatformItem(items[i])
    ensures var a := Packed(p, level, items).value;
      var c := Scanned(p.utf8, PrintArchive(a));
      && (c.Some? <==> PathsAccepted(p, level, items))
      && (c.Some? ==>
            && c.value.files == ListingOf(p, level, items).files
            && c.value.directories == ListingOf(p, level, items).directories
            && c.value.info == a.footer)
  {
    hide PackItems, Fold, ListedPaths, ListingOf, PathsUsable, FilePaths, Linked, TreeConsistent, RunChunks, UniqueBytes;
    var a := Packed(p, level, items).value;
    PackedFits(p, level, items);
    ArchiveCodec(PrintArchive(a), a);
    var s := Run(p, level, items, RunChunks(p, items));
    if PathsUsable(ListedPaths(p, level, items)) {
      assert s.paths == (set path | path in ListedPaths(p, level, items));
      FlattenNothing();
      Footers(p, level, items, s);
    }
  }

  // The smallest run, one folder: it scans unless its name has a backslash.
  lemma FolderScans(p: Primitives, level: nat, name: seq<byte>)
    requires p.Lawful() && LevelAllowed(level) && p.utf8(name)
    requires PlatformName(name) && |name| <= MAX_PATH_BYTES
    ensures var items := [Folder([Normal(name)])];
      && Packed(p, level, items).Some?
      && (Scanned(p.utf8, PrintArchive(Packed(p, level, items).value)).Some? <==> BACKSLASH !in name)
  {
    hide PrintArchive, Scanned;
    var items := [Folder([Normal(name)])];
    assert items[..0] == [] && PackItems(p, level, items[..0]) == Some(START);
    assert Names(items[0].components) == [name];
    assert StoredPath(p, items[0].components) == Some(name);
    assert PackItem(p, level, START, items[0]).Some?;
    assert PackItems(p, level, items) == PackItem(p, level, START, items[0]);
    assert ListedPaths(p, level, items) == [name];
    assert ListingOf(p, level, items).files == [];
    PackedScans(p, level, items);
  }

  // Packing can succeed and the scan still refuse the result: a folder named
  // `a\b`, which the walk may yield and the writer does not question.
  lemma BackslashRefused(p: Primitives, level: nat)
    requires p.Lawful() && LevelAllowed(level) && p.utf8([0x61, BACKSLASH, 0x62])
    ensures var items := [Folder([Normal([0x61, BACKSLASH, 0x62])])];
      && PlatformItem(items[0])
      && Packed(p, level, items).Some?
      && Scanned(p.utf8, PrintArchive(Packed(p, level, items).value)).None?
  {
    hide PrintArchive, Scanned;
    FolderScans(p, level, [0x61, BACKSLASH, 0x62]);
  }

  // ------------------------------------------------------- ignored fields

  predicate RecordsZeroed(rs: seq<Record>) {
    forall i :: 0 <= i < |rs| ==> RecordZeroed(rs[i])
  }

  lemma {:induction false} ChunksZeroed(p: Primitives, level: nat, st: PackState, chunks: seq<seq<byte>>)
    requires RecordsZeroed(st.records) && PackChunks(p, level, st, chunks).Some?
    ensures RecordsZeroed(PackChunks(p, level, st, chunks).value.records)
  {
    hide StoredForm;
    if chunks != [] {
      ChunksZeroed(p, level, st, chunks[..|chunks| - 1]);
    }
  }

  lemma {:induction false} RunZeroed(p: Primitives, level: nat, items: seq<Item>)
    requires PackItems(p, level, items).Some?
    ensures RecordsZeroed(PackItems(p, level, items).value.records)
  {
    hide PackChunks, Normalized, ChunksFrom;
    if items != [] {
      var n := |items| - 1;
      var st, item := PackItems(p, level, items[..n]).value, items[n];
      RunZeroed(p, level, items[..n]);
      if item.Regular? {
        ChunksZeroed(p, level, st, Chunks(p.gear, Flatten(item.pieces)));
      }
    }
  }

  // The writer leaves every ignored field zero: what it prints is canonical.
  lemma PackedCanonical(p: Primitives, level: nat, items: seq<Item>)
    requires Packed(p, level, items).Some?
    ensures Canonical(Packed(p, level, items).value) == Packed(p, level, items).value
  {
    hide PackItems, CanonicalRecords;
    RunZeroed(p, level, items);
    ZeroedIsCanonical(Packed(p, level, items).value);
  }

  // Yet a reader takes other values: the archive of one folder with a header
  // flag set scans like the packed one and is not canonical.
  lemma FlagAccepted(p: Primitives, level: nat, name: seq<byte>)
    requires p.Lawful() && LevelAllowed(level) && p.utf8(name)
    requires PlatformName(name) && |name| <= MAX_PATH_BYTES && BACKSLASH !in name
    ensures Packed(p, level, [Folder([Normal(name)])]).Some?
    ensures var a := Packed(p, level, [Folder([Normal(name)])]).value;
      var data := PrintArchive(a.(flags := 1));
      && Scanned(p.utf8, data).Some? && Scanned(p.utf8, data) == Scanned(p.utf8, PrintArchive(a))
      && data != PrintArchive(Canonical(a.(flags := 1)))
  {
    hide PrintArchive, Scanned, PackItems, CanonicalRecords, RecordFits;
    var items := [Folder([Normal(name)])];
    FolderScans(p, level, name);
    PackedFits(p, level, items);
    var a := Packed(p, level, items).value;
    CanonicalScansAlike(p.utf8, a, a.(flags := 1));
    ArchiveCodec(PrintArchive(a.(flags := 1)), a.(flags := 1));
    CanonicalBytes(PrintArchive(a.(flags := 1)));
  }

  lemma Footers(p: Primitives, level: nat, items: seq<Item>, s: ScanState)
    requires PackItems(p, level, items).Some? && Follows(p, level, items, s)
    ensures Fold(p.utf8, PackItems(p, level, items).value.records) == Some(s)
    ensures |s.referenced| == |s.chunks| && UniqueBytes(s.chunks) <= s.logicalBytes <= U64_MAX
    ensures FooterOf(PackItems(p, level, items).value.stats) == Statistics(s)
  {
    hide PackItems, Fold, ListedPaths, ListingOf, FilePaths, UniqueBytes, Stored, Flatten;
    FlattenNothing();
    assert |s.chunks.Keys| == |s.chunks|;
  }

  // At every entry boundary of every run: the hashes emitted are the hashes
  // seen and the hashes referenced, and the eight running counters are those a
  // scan recomputes from the records written so far.
  lemma StatisticsInStep(p: Primitives, level: nat, items: seq<Item>, n: nat)
    requires p.Lawful() && PackItems(p, level, items).Some? && n <= |items|
    requires p.InjectiveOn(RunChunks(p, items))
    requires forall i :: 0 <= i < |items| ==> PlatformItem(items[i])
    ensures PackItems(p, level, items[..n]).Some?
    ensures var st := PackItems(p, level, items[..n]).value;
      var s := Fold(p.utf8, st.records);
      PathsUsable(ListedPaths(p, level, items[..n])) ==>
        && s.Some?
        && s.value.chunks.Keys == s.value.referenced == st.contents.Keys
        && UniqueBytes(s.value.chunks) <= s.value.logicalBytes
        && FooterOf(st.stats) == Statistics(s.value)
  {
    hide PackItem, Fold, ListedPaths, ListingOf, PathsUsable, FilePaths, RunChunks, UniqueBytes, Statistics;
    if PackItems(p, level, items[..n]).None? {
      PackItemsPrefix(p, level, items, n);
    }
    PrefixChunks(p, items, n);
    var s := Run(p, level, items[..n], RunChunks(p, items));
    if PathsUsable(ListedPaths(p, level, items[..n])) {
      Footers(p, level, items[..n], s);
    }
  }

  lemma {:induction false} PrefixChunks(p: Primitives, items: seq<Item>, n: nat)
    requires n <= |items|
    ensures RunChunks(p, items[..n]) <= RunChunks(p, items)
  {
    hide ItemChunks;
    if n == |items| {
      assert items[..n] == items;
    } else {
      assert items[..|items| - 1][..n] == items[..n];
      PrefixChunks(p, items[..|items| - 1], n);
    }
  }

  // ----------------------------------------------------------------- reading

  // Distinct chunks are listed under their own hashes.
  ghost predicate Keyed(p: Primitives, st: PackState) {
    forall h :: h in st.contents ==> p.hash(st.contents[h]) == h
  }

  // Packing a file lists all its chunks and forgets none.
  lemma {:induction false} ChunksListed(p: Primitives, level: nat, st: PackState, chunks: seq<seq<byte>>,
                                        universe: set<seq<byte>>)
    requires Keyed(p, st) && Known(p, st, universe) && p.InjectiveOn(universe)
    requires PackChunks(p, level, st, chunks).Some?
    requires forall i :: 0 <= i < |chunks| ==> chunks[i] != [] && chunks[i] in universe
    ensures var st' := PackChunks(p, level, st, chunks).value;
      && Keyed(p, st') && Known(p, st', universe) && Listed(p, st', chunks)
      && (forall h :: h in st.contents ==> h in st'.contents && st'.contents[h] == st.contents[h])
  {
    hide StoredForm, ChunkRecord;
    if chunks != [] {
      var n := |chunks| - 1;
      ChunksListed(p, level, st, chunks[..n], universe);
      KnownStep(p, level, PackChunks(p, level, st, chunks[..n]).value, chunks[n], universe);
    }
  }

  ghost predicate AllListed(p: Primitives, st: PackState, items: seq<Item>) {
    forall i :: 0 <= i < |items| && items[i].Regular? ==> Listed(p, st, Chunks(p.gear, Flatten(items[i].pieces)))
  }

  lemma {:induction false} RunListed(p: Primitives, level: nat, items: seq<Item>, universe: set<seq<byte>>)
    requires PackItems(p, level, items).Some?
    requires p.InjectiveOn(universe) && RunChunks(p, items) <= universe
    ensures var st := PackItems(p, level, items).value;
      Keyed(p, st) && Known(p, st, universe) && AllListed(p, st, items)
  {
    hide PackItem, Chunks, Flatten, ItemChunks, AllListed, Listed, Keyed, Known;
    if items == [] {
      NothingListed(p, universe);
    } else {
      var n := |items| - 1;
      RunListed(p, level, items[..n], universe);
      ItemListed(p, level, PackItems(p, level, items[..n]).value, items[n], universe);
      ListedKept(p, PackItems(p, level, items[..n]).value, PackItems(p, level, items).value, items[..n]);
      AllListedSnoc(p, PackItems(p, level, items).value, items);
    }
  }

  lemma NothingListed(p: Primitives, universe: set<seq<byte>>)
    ensures Keyed(p, START) && Known(p, START, universe) && AllListed(p, START, [])
  {
  }

  lemma ItemListed(p: Primitives, level: nat, st: PackState, item: Item, universe: set<seq<byte>>)
    requires Keyed(p, st) && Known(p, st, universe) && p.InjectiveOn(universe)
    requires PackItem(p, level, st, item).Some? && ItemChunks(p, item) <= universe
    ensures var st' := PackItem(p, level, st, item).value;
      && Keyed(p, st') && Known(p, st', universe)
      && (item.Regular? ==> Listed(p, st', Chunks(p.gear, Flatten(item.pieces))))
      && (forall h :: h in st.contents ==> h in st'.contents && st'.contents[h] == st.contents[h])
  {
    hide PackChunks, Normalized, ChunksFrom, Flatten;
    if item.Regular? {
      var chunks := Chunks(p.gear, Flatten(item.pieces));
      ChunksOfFile(p.gear, Flatten(item.pieces));
      ChunksListed(p, level, st, chunks, universe);
    }
  }

  lemma ListedKept(p: Primitives, st: PackState, st': PackState, items: seq<Item>)
    requires AllListed(p, st, items)
    requires forall h :: h in st.contents ==> h in st'.contents && st'.contents[h] == st.contents[h]
    ensures AllListed(p, st', items)
  {
    hide Chunks, Flatten;
  }

  lemma AllListedSnoc(p: Primitives, st: PackState, items: seq<Item>)
    requires items != [] && AllListed(p, st, items[..|items| - 1])
    requires var last := items[|items| - 1];
      last.Regular? ==> Listed(p, st, Chunks(p.gear, Flatten(last.pieces)))
    ensures AllListed(p, st, items)
  {
    hide Chunks, Flatten, Listed;
  }

  // A chunk emitted by the writer reads back from the archive.
  lemma ChunkReadsBack(p: Primitives, level: nat, a: Archive, st: PackState, s: ScanState, h: Digest)
    requires p.Lawful() && ArchiveFits(a) && a.records == st.records
    requires Linked(p, level, st, s) && h in st.contents
    ensures h in s.chunks && ChunkData(p, PrintArchive(a), h, s.chunks[h]) == Some(st.contents[h])
  {
    hide Fold, PrintArchive, StoredForm, Soundness.TableOf, Soundness.MetaOf, RecordFits;
    Soundness.ChunkTable(p.utf8, st.records);
    Soundness.TableFinds(st.records, s.chunks, h);
    var j: nat :| Soundness.ChunkAtIndex(st.records, j, h);
    assert Stored(p, level, st.contents, st.records[j]) && RecordFits(a.records[j]);
    TableEntry(st.records, s.chunks, j);
    PayloadDecodes(p, level, a, j, st.contents[h]);
  }

  lemma PayloadDecodes(p: Primitives, level: nat, a: Archive, j: nat, data: seq<byte>)
    requires p.Lawful() && j < |a.records| && a.records[j].Chunk? && RecordFits(a.records[j])
    requires StoredForm(p, level, data).Some?
    requires a.records[j] == ChunkRecord(p, data, StoredForm(p, level, data).value)
    ensures ChunkData(p, PrintArchive(a), p.hash(data), Soundness.MetaOf(a.records, j)) == Some(data)
  {
    hide PrintArchive, StoredForm, Catalog.OffsetAfter, Decode;
    Soundness.PayloadBytes(a, j);
    StoredDecodes(p, level, data, Soundness.MetaOf(a.records, j));
  }

  lemma TableEntry(rs: seq<Record>, chunks: map<Digest, ChunkMeta>, j: nat)
    requires Soundness.TableOf(rs, chunks) && j < |rs| && rs[j].Chunk?
    ensures rs[j].hash in chunks && chunks[rs[j].hash] == Soundness.MetaOf(rs, j)
  {
  }

  lemma StoredDecodes(p: Primitives, level: nat, data: seq<byte>, meta: ChunkMeta)
    requires p.Lawful() && StoredForm(p, level, data).Some?
    requires meta.compression == StoredForm(p, level, data).value.0 && meta.originalSize == |data|
    ensures Decode(p, meta, StoredForm(p, level, data).value.1) == Some(data)
  {
  }

  lemma {:induction false} ListedReadsBack(p: Primitives, level: nat, a: Archive, st: PackState, s: ScanState,
                                           chunks: seq<seq<byte>>)
    requires p.Lawful() && ArchiveFits(a) && a.records == st.records
    requires Linked(p, level, st, s) && Listed(p, st, chunks)
    ensures ChunksData(p, PrintArchive(a), s.chunks, Hashes(p, chunks)) == Some(Flatten(chunks))
  {
    hide PrintArchive, ChunkData, Linked, ArchiveFits;
    if chunks != [] {
      var n := |chunks| - 1;
      ListedReadsBack(p, level, a, st, s, chunks[..n]);
      ChunkReadsBack(p, level, a, st, s, p.hash(chunks[n]));
      assert Hashes(p, chunks)[..n] == Hashes(p, chunks[..n]);
    }
  }

  // The contents of the packed files, in the order in which they are listed.
  function ContentsOf(items: seq<Item>): seq<seq<byte>> {
    if items == [] then []
    else
      var n := |items| - 1;
      if items[n].Regular? then ContentsOf(items[..n]) + [Flatten(items[n].pieces)] else ContentsOf(items[..n])
  }

  // Each listed file is the entry of one packed item.
  lemma {:induction false} ListingPlace(p: Primitives, level: nat, items: seq<Item>, i: nat)
    returns (k: nat)
    requires PackItems(p, level, items).Some? && i < |ListingOf(p, level, items).files|
    ensures |ContentsOf(items)| == |ListingOf(p, level, items).files|
    ensures k < |items| && items[k].Regular? && ContentsOf(items)[i] == Flatten(items[k].pieces)
    ensures PathOfItem(p, items[k]).Some?
    ensures ListingOf(p, level, items).files[i] == FileEntry(p, PathOfItem(p, items[k]).value, ContentsOf(items)[i])
  {
    hide PackFile, PackFolder, StoredPath, FileEntry, Flatten;
    var n := |items| - 1;
    if i < |ListingOf(p, level, items[..n]).files| {
      k := ListingPlace(p, level, items[..n], i);
    } else {
      k := n;
      ListingLength(p, level, items[..n]);
    }
  }

  function PathOfItem(p: Primitives, item: Item): Option<Path>
    requires item.Regular?
  {
    StoredPath(p, item.components)
  }

  lemma {:induction false} ListingLength(p: Primitives, level: nat, items: seq<Item>)
    requires PackItems(p, level, items).Some?
    ensures |ContentsOf(items)| == |ListingOf(p, level, items).files|
  {
    hide PackFile, PackFolder, StoredPath, FileEntry, Flatten;
    if items != [] {
      ListingLength(p, level, items[..|items| - 1]);
    }
  }

  // Pack, scan, read: when the paths are accepted, every packed file reads
  // back as it was, and verification succeeds.
  lemma PackedReadsBack(p: Primitives, level: nat, items: seq<Item>)
    requires p.Lawful() && Packed(p, level, items).Some?
    requires p.InjectiveOn(RunChunks(p, items))
    requires forall i :: 0 <= i < |items| ==> PlatformItem(items[i])
    requires PathsAccepted(p, level, items)
    ensures var data := PrintArchive(Packed(p, level, items).value);
      var c := Scanned(p.utf8, data);
      && c.Some? && |c.value.files| == |ContentsOf(items)|
      && AllIntact(p, data, c.value)
      && (forall i :: 0 <= i < |c.value.files| ==>
            Entry(p, data, c.value.files[i].path) == Some(ContentsOf(items)[i]))
  {
    hide PackItems, Scanned, PathsUsable, ListedPaths, TreeConsistent, FilePaths, RunChunks, Entry, PrintArchive;
    PackedScans(p, level, items);
    ListingLength(p, level, items);
    var data := PrintArchive(Packed(p, level, items).value);
    var c := Scanned(p.utf8, data).value;
    forall i: nat | i < |c.files|
      ensures FileData(p, data, c.chunks, c.files[i]) == Some(ContentsOf(items)[i])
      ensures Entry(p, data, c.files[i].path) == Some(ContentsOf(items)[i])
    {
      FileReadsBack(p, level, items, i);
      EntryOfFile(p, data, i);
    }
  }

  lemma FileReadsBack(p: Primitives, level: nat, items: seq<Item>, i: nat)
    requires p.Lawful() && Packed(p, level, items).Some?
    requires p.InjectiveOn(RunChunks(p, items))
    requires forall i :: 0 <= i < |items| ==> PlatformItem(items[i])
    requires PathsAccepted(p, level, items)
    requires i < |ListingOf(p, level, items).files|
    ensures var data := PrintArchive(Packed(p, level, items).value);
      var c := Scanned(p.utf8, data);
      && c.Some? && i < |c.value.files| && i < |ContentsOf(items)|
      && FileData(p, data, c.value.chunks, c.value.files[i]) == Some(ContentsOf(items)[i])
  {
    hide PackItems, Fold, ListedPaths, PathsUsable, FilePaths, TreeConsistent, RunChunks, Conclude, PrintArchive,
      ListingOf, ContentsOf, Linked, Flatten, ChunksFrom, Listed;
    var a := Packed(p, level, items).value;
    var data := PrintArchive(a);
    var st := PackItems(p, level, items).value;
    PackedFits(p, level, items);
    PackedScans(p, level, items);
    ArchiveCodec(data, a);
    var s := Run(p, level, items, RunChunks(p, items));
    Footers(p, level, items, s);
    ConcludeKeeps(s, a.footer);
    var k := ListingPlace(p, level, items, i);
    RunListed(p, level, items, RunChunks(p, items));
    var content := Flatten(items[k].pieces);
    ChunksOfFile(p.gear, content);
    ListedReadsBack(p, level, a, st, s, Chunks(p.gear, content));
  }

  lemma ConcludeKeeps(s: ScanState, footer: Footer)
    ensures Conclude(s, footer).Some? ==>
      Conclude(s, footer).value.chunks == s.chunks && Conclude(s, footer).value.files == s.files
  {
    hide TreeConsistent, UniqueBytes;
  }
}
