// Extraction: the accepted catalog, or a selected part of it, as a tree of
// directories and files.
module Extract {
  import opened Bytes
  import opened Sequences
  import opened Format
  import opened Paths
  import opened Primitives
  import opened Catalog
  import opened Soundness
  import opened Sources
  import opened FramedReader
  import opened Reconstruct
  import opened FileTree
  import Scan

  // --------------------------------------------------------------- selection

  // The wanted path itself, or anything below it.
  predicate Matches(selected: Option<Path>, path: Path) {
    selected.None? || path == selected.value
      || (selected.value < path && path[|selected.value|] == SLASH)
  }

  // Selection goes by whole components.
  lemma MatchesMeaning(wanted: Path, path: Path)
    ensures Matches(Some(wanted), path) <==> Parts(wanted) <= Parts(path)
  {
    if Matches(Some(wanted), path) && path != wanted {
      var rest := path[|wanted| + 1..];
      assert path == wanted + [SLASH] + rest;
      SplitConcat(wanted, SLASH, rest);
    }
    if Parts(wanted) <= Parts(path) {
      PartsPrefix(wanted, path);
    }
  }

  lemma {:induction false} JoinConcat(a: seq<seq<byte>>, b: seq<seq<byte>>)
    requires |a| >= 1 && |b| >= 1
    ensures Join(a + b, SLASH) == Join(a, SLASH) + [SLASH] + Join(b, SLASH)
  {
    assert (a + b)[1..] == a[1..] + b;
    if |a| > 1 {
      JoinConcat(a[1..], b);
    }
  }

  lemma PartsPrefix(wanted: Path, path: Path)
    requires Parts(wanted) <= Parts(path)
    ensures Matches(Some(wanted), path)
  {
    JoinSplit(wanted, SLASH);
    JoinSplit(path, SLASH);
    var n := |Parts(wanted)|;
    assert Parts(path) == Parts(wanted) + Parts(path)[n..];
    if n < |Parts(path)| {
      JoinConcat(Parts(wanted), Parts(path)[n..]);
    } else {
      assert Parts(path) == Parts(wanted);
    }
  }

  function SelectFiles(selected: Option<Path>, files: seq<FileRecord>): seq<FileRecord> {
    if files == [] then []
    else
      var n := |files| - 1;
      SelectFiles(selected, files[..n]) + if Matches(selected, files[n].path) then [files[n]] else []
  }

  function SelectDirectories(selected: Option<Path>, directories: seq<Path>): seq<Path> {
    if directories == [] then []
    else
      var n := |directories| - 1;
      SelectDirectories(selected, directories[..n]) + if Matches(selected, directories[n]) then [directories[n]] else []
  }

  lemma {:induction false} SelectedFilesAre(selected: Option<Path>, files: seq<FileRecord>, f: FileRecord)
    ensures f in SelectFiles(selected, files) <==> f in files && Matches(selected, f.path)
  {
    if files != [] {
      var n := |files| - 1;
      SelectedFilesAre(selected, files[..n], f);
      assert files == files[..n] + [files[n]];
    }
  }

  lemma {:induction false} SelectedDirectoriesAre(selected: Option<Path>, directories: seq<Path>, d: Path)
    ensures d in SelectDirectories(selected, directories) <==> d in directories && Matches(selected, d)
  {
    if directories != [] {
      var n := |directories| - 1;
      SelectedDirectoriesAre(selected, directories[..n], d);
      assert directories == directories[..n] + [directories[n]];
    }
  }

  // Stable sort of directories by depth.
  function Depth(path: Path): nat {
    |Parts(path)| - 1
  }

  function InsertByDepth(sorted: seq<Path>, d: Path): seq<Path> {
    if sorted == [] || Depth(sorted[|sorted| - 1]) <= Depth(d) then sorted + [d]
    else InsertByDepth(sorted[..|sorted| - 1], d) + [sorted[|sorted| - 1]]
  }

  function SortByDepth(directories: seq<Path>): seq<Path> {
    if directories == [] then []
    else InsertByDepth(SortByDepth(directories[..|directories| - 1]), directories[|directories| - 1])
  }

  predicate ByDepth(paths: seq<Path>) {
    forall i, j :: 0 <= i < j < |paths| ==> Depth(paths[i]) <= Depth(paths[j])
  }

  lemma AppendDeepest(paths: seq<Path>, last: Path)
    requires ByDepth(paths) && forall x :: x in paths ==> Depth(x) <= Depth(last)
    ensures ByDepth(paths + [last])
  {
    hide Depth;
  }

  lemma {:induction false} InsertOrders(sorted: seq<Path>, d: Path)
    requires ByDepth(sorted)
    ensures ByDepth(InsertByDepth(sorted, d))
    ensures multiset(InsertByDepth(sorted, d)) == multiset(sorted) + multiset{d}
  {
    hide Depth, ByDepth;
    if sorted == [] {
      AppendDeepest([], d);
    } else {
      var init, last := sorted[..|sorted| - 1], sorted[|sorted| - 1];
      assert sorted == init + [last];
      EndsDeepest(sorted);
      if Depth(last) <= Depth(d) {
        AppendDeepest(sorted, d);
      } else {
        InsertOrders(init, d);
        var inner := InsertByDepth(init, d);
        forall x | x in inner
          ensures Depth(x) <= Depth(last)
        {
          assert x in multiset(inner);
        }
        AppendDeepest(inner, last);
      }
    }
  }

  lemma EndsDeepest(sorted: seq<Path>)
    requires sorted != [] && ByDepth(sorted)
    ensures ByDepth(sorted[..|sorted| - 1])
    ensures forall x :: x in sorted ==> Depth(x) <= Depth(sorted[|sorted| - 1])
  {
    hide Depth;
  }

  // The sort orders by depth and neither loses nor repeats a directory.
  lemma {:induction false} SortOrders(directories: seq<Path>)
    ensures ByDepth(SortByDepth(directories))
    ensures multiset(SortByDepth(directories)) == multiset(directories)
  {
    hide Depth;
    if directories != [] {
      var n := |directories| - 1;
      SortOrders(directories[..n]);
      InsertOrders(SortByDepth(directories[..n]), directories[n]);
      assert directories == directories[..n] + [directories[n]];
    }
  }

  lemma SortKeeps(directories: seq<Path>, x: Path)
    ensures x in SortByDepth(directories) <==> x in directories
  {
    SortOrders(directories);
    assert x in SortByDepth(directories) <==> x in multiset(SortByDepth(directories));
    assert x in directories <==> x in multiset(directories);
  }

  // ------------------------------------------------------------ target tree

  // A file to be written: where, and what.
  datatype Placed = Placed(place: Location, content: seq<byte>)

  ghost predicate Needed(q: Location, dirs: set<Location>, files: set<Placed>) {
    || q == []
    || (exists d :: d in dirs && Above(q, d))
    || (exists f :: f in files && Above(q, f.place))
  }

  // The tree consists of the directories, the files, and their ancestors, and
  // of nothing else.
  ghost predicate Realises(nodes: map<Location, Node>, dirs: set<Location>, files: set<Placed>) {
    && (forall q :: q in nodes <==> Needed(q, dirs, files))
    && (forall f :: f in files ==> f.place in nodes && nodes[f.place] == FileNode(f.content))
    && (forall q :: q in nodes ==> nodes[q].DirectoryNode? || exists f :: f in files && f.place == q)
  }

  // There is only one such tree, so the order of records does not matter.
  lemma TreeDetermined(a: map<Location, Node>, b: map<Location, Node>, dirs: set<Location>, files: set<Placed>)
    requires Realises(a, dirs, files) && Realises(b, dirs, files)
    ensures a == b
  {
    hide Needed;
    forall q | q in a
      ensures q in b && a[q] == b[q]
    {
      assert q in b;
    }
    forall q | q in b
      ensures q in a
    {
    }
  }

  // No file is at, above or below another file's or a directory's place in a
  // way that would collide.
  ghost predicate NoCollision(dirs: set<Location>, files: set<Placed>, place: Location) {
    && place != []
    && (forall d :: d in dirs ==> !Above(place, d))
    && (forall f :: f in files ==> !Above(place, f.place) && !Above(f.place, place))
  }

  lemma DirectoryPlaced(before: map<Location, Node>, after: map<Location, Node>, dirs: set<Location>, d: Location)
    requires Realises(before, dirs, {}) && DirsAdded(before, after, d)
    ensures Realises(after, dirs + {d}, {})
  {
    forall q
      ensures q in after <==> Needed(q, dirs + {d}, {})
    {
    }
  }

  lemma FilePlaced(before: map<Location, Node>, mid: map<Location, Node>, dirs: set<Location>, files: set<Placed>,
                   f: Placed)
    requires Realises(before, dirs, files) && NoCollision(dirs, files, f.place)
    requires DirsAdded(before, mid, f.place[..|f.place| - 1])
    ensures f.place !in mid && f.place[..|f.place| - 1] in mid
    ensures mid[f.place[..|f.place| - 1]].DirectoryNode?
    ensures Realises(mid[f.place := FileNode(f.content)], dirs, files + {f})
  {
    var parent := f.place[..|f.place| - 1];
    var after := mid[f.place := FileNode(f.content)];
    assert Above(parent, parent);
    forall q: Location
      ensures Above(q, f.place) <==> Above(q, parent) || q == f.place
    {
    }
    forall q
      ensures q in after <==> Needed(q, dirs, files + {f})
    {
    }
  }

  // -------------------------------------------------------------- extracting

  function ContentOf(p: Primitives, data: seq<byte>, c: ArchiveCatalog, f: FileRecord): seq<byte> {
    if FileData(p, data, c.chunks, f).Some? then FileData(p, data, c.chunks, f).value else []
  }

  ghost function Placements(p: Primitives, data: seq<byte>, c: ArchiveCatalog, files: seq<FileRecord>): set<Placed> {
    set f | f in files :: Placed(Parts(f.path), ContentOf(p, data, c, f))
  }

  ghost function Places(directories: seq<Path>): set<Location> {
    set d | d in directories :: Parts(d)
  }

  // Copies the chunks of a file into its freshly created place.
  method CopyChunks(src: Source, p: Primitives, tree: Tree, c: ArchiveCatalog, f: FileRecord, place: Location)
    returns (r: Result<()>)
    requires src.Valid() && PayloadsInside(src.data, c)
    requires FileResolves(c.chunks, f) && f.originalSize <= U64_MAX
    requires place in tree.nodes && tree.nodes[place] == FileNode([])
    modifies src.Repr(), tree
    ensures src.Valid()
    ensures r.Ok? ==>
      && FileData(p, src.data, c.chunks, f).Some?
      && tree.nodes == old(tree.nodes)[place := FileNode(FileData(p, src.data, c.chunks, f).value)]
      && var content := FileData(p, src.data, c.chunks, f).value;
         |content| == f.originalSize && p.hash(content) == f.hash
    ensures src.authentic ==> (r.Ok? <==> FileData(p, src.data, c.chunks, f).Some?)
  {
    hide Reader.Valid, Reader.Contents, Reader.CanRead;
    hide ChunkData, ChunksData, RefSize;
    var hashed: seq<byte> := [];
    var size: nat := 0;
    var i := 0;
    NoChunks(p, src.data, c.chunks, f.chunkHashes);
    while i < |f.chunkHashes|
      invariant i <= |f.chunkHashes| && src.Valid() && size == |hashed|
      invariant ChunksData(p, src.data, c.chunks, f.chunkHashes[..i]) == Some(hashed)
      invariant tree.nodes == old(tree.nodes)[place := FileNode(hashed)]
    {
      var hash := f.chunkHashes[i];
      if hash !in c.chunks {
        return Err(Missing);
      }
      NextChunk(p, src.data, c.chunks, f.chunkHashes, i);
      var chunk := ReadChunkData(src, p, hash, c.chunks[hash]);
      if chunk.Err? {
        return Err(chunk.error);
      }
      SizeWithin(p, src.data, c.chunks, f, i + 1);
      tree.Append(place, chunk.value);
      hashed := hashed + chunk.value;
      var next := CheckedAdd(size, |chunk.value|);
      if next.None? {
        return Err(Overflow);
      }
      size := next.value;
      i := i + 1;
    }
    assert f.chunkHashes[..i] == f.chunkHashes;
    if size != f.originalSize {
      return Err(Corrupt);
    }
    if p.hash(hashed) != f.hash {
      return Err(Corrupt);
    }
    r := Ok(());
  }

  // Writes one file. Creating it never collides; on failure it is removed.
  method ExtractFileRecord(src: Source, p: Primitives, tree: Tree, c: ArchiveCatalog, f: FileRecord,
                           ghost dirs: set<Location>, ghost files: set<Placed>)
    returns (r: Result<()>)
    requires src.Valid() && PayloadsInside(src.data, c)
    requires FileResolves(c.chunks, f) && f.originalSize <= U64_MAX && ValidPath(f.path)
    requires Realises(tree.nodes, dirs, files) && NoCollision(dirs, files, Parts(f.path))
    modifies src.Repr(), tree
    ensures src.Valid()
    ensures r.Ok? ==>
      && FileData(p, src.data, c.chunks, f).Some?
      && Realises(tree.nodes, dirs, files + {Placed(Parts(f.path), ContentOf(p, src.data, c, f))})
    ensures r.Err? ==> Parts(f.path) !in tree.nodes
    ensures src.authentic ==> (r.Ok? <==> FileData(p, src.data, c.chunks, f).Some?)
  {
    hide Reader.Valid, Reader.Contents, Reader.CanRead;
    hide FileData, FileResolves, ValidPath, Parts, PayloadsInside;
    var valid := ValidateArchivePath(f.path);
    if valid.Err? {
      return Err(BadPath);
    }
    var place := valid.value;
    var parent := place[..|place| - 1];
    ghost var before := tree.nodes;
    WayIsClear(before, dirs, files, place);
    var made := tree.CreateDirAll(parent);
    if made.Err? {
      return Err(Error.Exists);
    }
    FilePlaced(before, tree.nodes, dirs, files, Placed(place, ContentOf(p, src.data, c, f)));
    ghost var mid := tree.nodes;
    var created := tree.CreateNew(place);
    if created.Err? {
      return Err(Error.Exists);
    }
    r := CopyChunks(src, p, tree, c, f, place);
    if r.Err? {
      tree.RemoveFile(place);
    } else {
      assert tree.nodes == mid[place := FileNode(ContentOf(p, src.data, c, f))];
    }
  }

  lemma WayIsClear(nodes: map<Location, Node>, dirs: set<Location>, files: set<Placed>, place: Location)
    requires Realises(nodes, dirs, files) && NoCollision(dirs, files, place)
    ensures NoFileAbove(nodes, place[..|place| - 1])
    ensures place !in nodes
  {
    var parent := place[..|place| - 1];
    forall q | q in nodes && Above(q, parent)
      ensures nodes[q].DirectoryNode?
    {
      assert Above(q, place);
    }
  }

  // What extraction relies on: the chosen files resolve, their paths are valid
  // and distinct, and none of them is at or above another chosen entry.
  ghost predicate Extractable(c: ArchiveCatalog, directories: seq<Path>, files: seq<FileRecord>) {
    && (forall i :: 0 <= i < |directories| ==> ValidPath(directories[i]))
    && (forall i :: 0 <= i < |files| ==>
          ValidPath(files[i].path) && FileResolves(c.chunks, files[i]) && files[i].originalSize <= U64_MAX)
    && (forall i, j :: 0 <= i < |files| && 0 <= j < |directories| ==>
          !Above(Parts(files[i].path), Parts(directories[j])))
    && (forall i, j :: 0 <= i < |files| && 0 <= j < |files| && i != j ==>
          !Above(Parts(files[i].path), Parts(files[j].path)))
  }

  lemma {:induction false} SelectKeepsDistinct(selected: Option<Path>, files: seq<FileRecord>)
    requires forall i, j :: 0 <= i < j < |files| ==> files[i].path != files[j].path
    ensures var chosen := SelectFiles(selected, files);
      forall i, j :: 0 <= i < j < |chosen| ==> chosen[i].path != chosen[j].path
  {
    if files != [] {
      var n := |files| - 1;
      SelectKeepsDistinct(selected, files[..n]);
      var before := SelectFiles(selected, files[..n]);
      forall k | 0 <= k < |before|
        ensures before[k].path != files[n].path
      {
        SelectedFilesAre(selected, files[..n], before[k]);
        var i :| 0 <= i < n && files[i] == before[k];
      }
    }
  }

  lemma SamePartsSamePath(a: Path, b: Path)
    requires Parts(a) == Parts(b)
    ensures a == b
  {
    JoinSplit(a, SLASH);
    JoinSplit(b, SLASH);
  }

  lemma AcceptedExtractable(p: Primitives, data: seq<byte>, selected: Option<Path>)
    requires Scanned(p.utf8, data).Some?
    ensures var c := Scanned(p.utf8, data).value;
      Extractable(c, SelectDirectories(selected, c.directories), SelectFiles(selected, c.files))
  {
    hide Scanned, ValidPath, FileResolves, Matches, Parts;
    var c := Scanned(p.utf8, data).value;
    AcceptedReadable(p.utf8, data);
    PathsSound(p.utf8, data);
    SelectKeepsDistinct(selected, c.files);
    var directories, files := SelectDirectories(selected, c.directories), SelectFiles(selected, c.files);
    forall i | 0 <= i < |directories|
      ensures directories[i] in c.directories
    {
      SelectedDirectoriesAre(selected, c.directories, directories[i]);
    }
    forall i | 0 <= i < |files|
      ensures files[i] in c.files
    {
      SelectedFilesAre(selected, c.files, files[i]);
    }
    forall i, j | 0 <= i < |files| && 0 <= j < |directories|
      ensures !Above(Parts(files[i].path), Parts(directories[j]))
    {
      NotAboveEntry(c, files[i], directories[j]);
    }
    forall i, j | 0 <= i < |files| && 0 <= j < |files| && i != j
      ensures !Above(Parts(files[i].path), Parts(files[j].path))
    {
      NotAboveEntry(c, files[i], files[j].path);
    }
  }

  lemma NotAboveEntry(c: ArchiveCatalog, f: FileRecord, path: Path)
    requires forall path, i :: IsEntry(c, path) && 0 <= i < |c.files| ==> !ProperlyBelow(path, c.files[i].path)
    requires f in c.files && f.path != path
    requires path in c.directories || exists i :: 0 <= i < |c.files| && c.files[i].path == path
    ensures !Above(Parts(f.path), Parts(path))
  {
    hide Parts;
    var k :| 0 <= k < |c.files| && c.files[k] == f;
    assert IsEntry(c, path);
    assert !ProperlyBelow(path, c.files[k].path);
    if Parts(f.path) == Parts(path) {
      SamePartsSamePath(f.path, path);
    }
  }

  // Creates the directories, shallow ones first, then the files.
  method BuildTree(src: Source, p: Primitives, tree: Tree, c: ArchiveCatalog, directories: seq<Path>, files: seq<FileRecord>)
    returns (r: Result<()>)
    requires src.Valid() && PayloadsInside(src.data, c) && Extractable(c, directories, files)
    requires tree.nodes == map[[] := DirectoryNode]
    modifies src.Repr(), tree
    ensures src.Valid()
    ensures r.Ok? ==>
      && (forall i :: 0 <= i < |files| ==> FileData(p, src.data, c.chunks, files[i]).Some?)
      && Realises(tree.nodes, Places(directories), Placements(p, src.data, c, files))
    ensures src.authentic ==>
      (r.Ok? <==> forall i :: 0 <= i < |files| ==> FileData(p, src.data, c.chunks, files[i]).Some?)
  {
    hide Reader.Valid, Reader.Contents, Reader.CanRead;
    hide FileData, FileResolves, ValidPath, Parts, PayloadsInside, Realises, Depth;
    BuildDirectories(tree, directories);
    assert Placements(p, src.data, c, files[..0]) == {};
    var j := 0;
    while j < |files|
      invariant j <= |files| && src.Valid()
      invariant Realises(tree.nodes, Places(directories), Placements(p, src.data, c, files[..j]))
      invariant forall i :: 0 <= i < j ==> FileData(p, src.data, c.chunks, files[i]).Some?
    {
      NextPlacement(p, src.data, c, directories, files, j);
      var extracted := ExtractFileRecord(src, p, tree, c, files[j], Places(directories),
                                         Placements(p, src.data, c, files[..j]));
      if extracted.Err? {
        return Err(extracted.error);
      }
      j := j + 1;
    }
    assert files[..j] == files;
    r := Ok(());
  }

  lemma NextPlacement(p: Primitives, data: seq<byte>, c: ArchiveCatalog, directories: seq<Path>, files: seq<FileRecord>, j: nat)
    requires Extractable(c, directories, files) && j < |files|
    ensures NoCollision(Places(directories), Placements(p, data, c, files[..j]), Parts(files[j].path))
    ensures Placements(p, data, c, files[..j + 1])
         == Placements(p, data, c, files[..j]) + {Placed(Parts(files[j].path), ContentOf(p, data, c, files[j]))}
  {
    hide FileResolves, ValidPath, Parts, ContentOf;
    assert files[..j + 1] == files[..j] + [files[j]];
  }

  method BuildDirectories(tree: Tree, directories: seq<Path>)
    requires tree.nodes == map[[] := DirectoryNode]
    requires forall i :: 0 <= i < |directories| ==> ValidPath(directories[i])
    modifies tree
    ensures Realises(tree.nodes, Places(directories), {})
  {
    hide Depth, ValidPath, Parts;
    var sorted := SortByDepth(directories);
    forall d
      ensures d in sorted <==> d in directories
    {
      SortKeeps(directories, d);
    }
    var i := 0;
    RootOnly();
    while i < |sorted|
      invariant i <= |sorted| && Realises(tree.nodes, Places(sorted[..i]), {})
    {
      assert sorted[i] in directories;
      var valid := ValidateArchivePath(sorted[i]);
      ghost var before := tree.nodes;
      NoFilesYet(before, Places(sorted[..i]), valid.value);
      var made := tree.CreateDirAll(valid.value);
      DirectoryPlaced(before, tree.nodes, Places(sorted[..i]), valid.value);
      assert sorted[..i + 1] == sorted[..i] + [sorted[i]];
      assert Places(sorted[..i + 1]) == Places(sorted[..i]) + {valid.value};
      i := i + 1;
    }
    assert sorted[..i] == sorted;
    assert Places(sorted) == Places(directories);
  }

  lemma RootOnly()
    ensures Realises(map[[] := DirectoryNode], Places([]), {})
  {
  }

  lemma NoFilesYet(nodes: map<Location, Node>, dirs: set<Location>, d: Location)
    requires Realises(nodes, dirs, {})
    ensures NoFileAbove(nodes, d)
  {
  }

  // ------------------------------------------------------------ in plain terms

  // Everything is wanted, or what is at or below the selected path.
  ghost predicate Wanted(selected: Option<Path>, path: Path) {
    selected.Some? ==> Parts(selected.value) <= Parts(path)
  }

  ghost predicate WantedAbove(c: ArchiveCatalog, selected: Option<Path>, q: Location, path: Path) {
    IsEntry(c, path) && Wanted(selected, path) && q <= Parts(path)
  }

  // A wanted file of the archive belongs at q and is rebuilt to `content`.
  ghost predicate BelongsAt(p: Primitives, data: seq<byte>, c: ArchiveCatalog, selected: Option<Path>, q: Location,
                            content: seq<byte>, path: Path)
  {
    Parts(path) == q && Wanted(selected, path) && EntryIs(p, data, c, path, content)
  }

  ghost predicate OnTheWay(c: ArchiveCatalog, selected: Option<Path>, q: Location) {
    exists path :: WantedAbove(c, selected, q, path)
  }

  ghost predicate Belongs(p: Primitives, data: seq<byte>, c: ArchiveCatalog, selected: Option<Path>, q: Location,
                          content: seq<byte>)
  {
    exists path :: BelongsAt(p, data, c, selected, q, content, path)
  }

  // The tree has a node for the output directory and for every wanted entry
  // and its ancestors, and for nothing else; its files are the wanted files
  // with their contents.
  ghost predicate IsTreeOf(p: Primitives, data: seq<byte>, c: ArchiveCatalog, selected: Option<Path>,
                           nodes: map<Location, Node>)
  {
    && (forall q :: q in nodes <==> q == [] || OnTheWay(c, selected, q))
    && (forall q, content :: q in nodes && nodes[q] == FileNode(content)
          <==> Belongs(p, data, c, selected, q, content))
  }

  lemma WantedMeaning(selected: Option<Path>, path: Path)
    ensures Matches(selected, path) <==> Wanted(selected, path)
  {
    hide Parts;
    if selected.Some? {
      MatchesMeaning(selected.value, path);
    }
  }

  lemma TreeInPlainTerms(p: Primitives, data: seq<byte>, selected: Option<Path>, nodes: map<Location, Node>)
    requires Scanned(p.utf8, data).Some?
    requires var c := Scanned(p.utf8, data).value;
      var files := SelectFiles(selected, c.files);
      && (forall i :: 0 <= i < |files| ==> FileData(p, data, c.chunks, files[i]).Some?)
      && Realises(nodes, Places(SelectDirectories(selected, c.directories)), Placements(p, data, c, files))
    ensures IsTreeOf(p, data, Scanned(p.utf8, data).value, selected, nodes)
  {
    hide Scanned, FileData, Parts, Matches, EntryIs, Realises, SelectFiles, SelectDirectories, OnTheWay, Belongs;
    var c := Scanned(p.utf8, data).value;
    forall q
      ensures q in nodes <==> q == [] || OnTheWay(c, selected, q)
    {
      NodePlain(p, data, c, selected, nodes, q);
    }
    forall q, content
      ensures q in nodes && nodes[q] == FileNode(content)
        <==> Belongs(p, data, c, selected, q, content)
    {
      FilePlain(p, data, c, selected, nodes, q, content);
    }
  }

  lemma NodePlain(p: Primitives, data: seq<byte>, c: ArchiveCatalog, selected: Option<Path>, nodes: map<Location, Node>,
                  q: Location)
    requires Realises(nodes, Places(SelectDirectories(selected, c.directories)),
                      Placements(p, data, c, SelectFiles(selected, c.files)))
    ensures q in nodes <==> q == [] || OnTheWay(c, selected, q)
  {
    hide FileData, Parts, Matches, Wanted;
    var directories, files := SelectDirectories(selected, c.directories), SelectFiles(selected, c.files);
    forall d
      ensures d in directories <==> d in c.directories && Wanted(selected, d)
    {
      SelectedDirectoriesAre(selected, c.directories, d);
      WantedMeaning(selected, d);
    }
    forall f
      ensures f in files <==> f in c.files && Wanted(selected, f.path)
    {
      SelectedFilesAre(selected, c.files, f);
      WantedMeaning(selected, f.path);
    }
    hide SelectFiles, SelectDirectories;
    if q in nodes && q != [] {
      if d :| d in directories && q <= Parts(d) {
        assert WantedAbove(c, selected, q, d);
      } else {
        var f :| f in files && q <= Parts(f.path);
        assert WantedAbove(c, selected, q, f.path);
      }
    }
    if path :| WantedAbove(c, selected, q, path) {
      if path in c.directories {
        assert Parts(path) in Places(directories);
      } else {
        var i :| 0 <= i < |c.files| && c.files[i].path == path;
        assert c.files[i] in files;
        assert Placed(Parts(path), ContentOf(p, data, c, c.files[i])) in Placements(p, data, c, files);
      }
    }
  }

  lemma FilePlain(p: Primitives, data: seq<byte>, c: ArchiveCatalog, selected: Option<Path>, nodes: map<Location, Node>,
                  q: Location, content: seq<byte>)
    requires Scanned(p.utf8, data) == Some(c)
    requires var files := SelectFiles(selected, c.files);
      && (forall i :: 0 <= i < |files| ==> FileData(p, data, c.chunks, files[i]).Some?)
      && Realises(nodes, Places(SelectDirectories(selected, c.directories)), Placements(p, data, c, files))
    ensures q in nodes && nodes[q] == FileNode(content)
      <==> Belongs(p, data, c, selected, q, content)
  {
    hide Scanned, FileData, Parts, Matches, Wanted, EntryIs, Needed;
    var files := SelectFiles(selected, c.files);
    forall f
      ensures f in files <==> f in c.files && Wanted(selected, f.path)
    {
      SelectedFilesAre(selected, c.files, f);
      WantedMeaning(selected, f.path);
    }
    hide SelectFiles, SelectDirectories;
    if q in nodes && nodes[q] == FileNode(content) {
      var placed :| placed in Placements(p, data, c, files) && placed.place == q;
      var f :| f in files && placed == Placed(Parts(f.path), ContentOf(p, data, c, f));
      ListedContent(p, data, c, f, content);
      assert BelongsAt(p, data, c, selected, q, content, f.path);
    }
    if path :| BelongsAt(p, data, c, selected, q, content, path) {
      var f := ListedFile(p, data, c, path, content);
      assert Placed(q, content) in Placements(p, data, c, files);
    }
  }

  lemma ListedContent(p: Primitives, data: seq<byte>, c: ArchiveCatalog, f: FileRecord, content: seq<byte>)
    requires Scanned(p.utf8, data) == Some(c) && f in c.files && FileData(p, data, c.chunks, f) == Some(content)
    ensures EntryIs(p, data, c, f.path, content)
  {
    hide Scanned, FileData, EntryIs;
    var i :| 0 <= i < |c.files| && c.files[i] == f;
    EntryOfFile(p, data, i);
    EntryMeaning(p, data, f.path, content);
  }

  lemma ListedFile(p: Primitives, data: seq<byte>, c: ArchiveCatalog, path: Path, content: seq<byte>)
    returns (f: FileRecord)
    requires EntryIs(p, data, c, path, content)
    ensures f in c.files && f.path == path && FileData(p, data, c.chunks, f) == Some(content)
  {
    hide FileData, Rebuilds;
    var i: nat, parts: seq<seq<byte>> :| RebuiltAt(p, data, c, path, content, i, parts);
    f := c.files[i];
    FileMeaning(p, data, c.chunks, f, content);
  }

  // A selection is refused exactly when the path is not valid or the archive
  // has no entry at or below it.
  lemma SelectionMeaning(c: ArchiveCatalog, wanted: Path)
    ensures Selectable(c, Some(wanted))
      <==> ValidPath(wanted) && exists path :: IsEntry(c, path) && Parts(wanted) <= Parts(path)
  {
    hide Parts, Matches, ValidPath;
    var directories, files := SelectDirectories(Some(wanted), c.directories), SelectFiles(Some(wanted), c.files);
    if files != [] {
      assert files[0] in files;
      SelectedFilesAre(Some(wanted), c.files, files[0]);
      MatchesMeaning(wanted, files[0].path);
      assert IsEntry(c, files[0].path);
    }
    if directories != [] {
      assert directories[0] in directories;
      SelectedDirectoriesAre(Some(wanted), c.directories, directories[0]);
      MatchesMeaning(wanted, directories[0]);
      assert IsEntry(c, directories[0]);
    }
    if path :| IsEntry(c, path) && Parts(wanted) <= Parts(path) {
      MatchesMeaning(wanted, path);
      if path in c.directories {
        SelectedDirectoriesAre(Some(wanted), c.directories, path);
      } else {
        var i :| 0 <= i < |c.files| && c.files[i].path == path;
        SelectedFilesAre(Some(wanted), c.files, c.files[i]);
      }
    }
  }

  // The whole extraction, of everything or of a selected path. It succeeds
  // exactly when the destination is free and can be made, the archive scans,
  // something is selected and every selected file checks; the tree is then
  // exactly the selected entries and their ancestors. Any failure leaves what
  // was there before.
  method ExtractReader(src: Source, p: Primitives, tree: Tree, selected: Option<Path>) returns (r: Result<Footer>)
    requires src.Valid() && (tree.RootExists() || tree.nodes == map[])
    modifies src.Repr(), tree
    ensures src.Valid()
    ensures r.Err? ==> tree.nodes == old(tree.nodes)
    ensures r.Ok? ==>
      && old(tree.nodes) == map[] && Scanned(p.utf8, src.data).Some?
      && var c := Scanned(p.utf8, src.data).value;
         var directories, files := SelectDirectories(selected, c.directories), SelectFiles(selected, c.files);
         && r.value == c.info
         && Selectable(c, selected)
         && (forall i :: 0 <= i < |files| ==> FileData(p, src.data, c.chunks, files[i]).Some?)
         && Realises(tree.nodes, Places(directories), Placements(p, src.data, c, files))
    ensures r.Ok? ==> IsTreeOf(p, src.data, Scanned(p.utf8, src.data).value, selected, tree.nodes)
    ensures src.authentic && old(tree.nodes) == map[] && tree.creatable && Scanned(p.utf8, src.data).Some? ==>
      var c := Scanned(p.utf8, src.data).value;
      var files := SelectFiles(selected, c.files);
      (r.Ok? <==> Selectable(c, selected)
                  && forall i :: 0 <= i < |files| ==> FileData(p, src.data, c.chunks, files[i]).Some?)
  {
    hide Reader.Valid, Reader.Contents, Reader.CanRead;
    hide Scanned, FileData, ValidPath, Parts, PayloadsInside, Realises, Extractable, SelectFiles, SelectDirectories, IsTreeOf;
    if tree.RootExists() {
      return Err(Error.Exists);
    }
    if selected.Some? {
      var valid := ValidateArchivePath(selected.value);
      if valid.Err? {
        return Err(valid.error);
      }
    }
    var scanned := Scan.ScanArchive(src, p.utf8);
    if scanned.Err? {
      return Err(scanned.error);
    }
    var c := scanned.value;
    var directories, files := SelectDirectories(selected, c.directories), SelectFiles(selected, c.files);
    if selected.Some? && files == [] && directories == [] {
      return Err(Missing);
    }
    var made := tree.CreateRoot();
    if made.Err? {
      return Err(made.error);
    }
    AcceptedReadable(p.utf8, src.data);
    AcceptedExtractable(p, src.data, selected);
    var built := BuildTree(src, p, tree, c, directories, files);
    if built.Err? {
      tree.RemoveAll();
      return Err(built.error);
    }
    TreeInPlainTerms(p, src.data, selected, tree.nodes);
    r := Ok(c.info);
  }

  // A selection names a valid path that has at least one entry.
  predicate Selectable(c: ArchiveCatalog, selected: Option<Path>) {
    selected.Some? ==>
      && ValidPath(selected.value)
      && (SelectFiles(selected, c.files) != [] || SelectDirectories(selected, c.directories) != [])
  }

  // Verification and full extraction succeed on the same archives, and the
  // extracted files hold what reading them one by one returns.
  lemma FullExtractionAgrees(p: Primitives, data: seq<byte>)
    requires Scanned(p.utf8, data).Some?
    ensures var c := Scanned(p.utf8, data).value;
      var files := SelectFiles(None, c.files);
      && Selectable(c, None)
      && (AllIntact(p, data, c) <==> forall i :: 0 <= i < |files| ==> FileData(p, data, c.chunks, files[i]).Some?)
      && (AllIntact(p, data, c) ==>
            Placements(p, data, c, files)
              == (set f | f in c.files :: Placed(Parts(f.path), EntryContent(p, data, f.path))))
  {
    hide Scanned, FileData, Parts, Entry;
    var c := Scanned(p.utf8, data).value;
    SelectAll(c.files);
    forall f | f in c.files
      ensures AllIntact(p, data, c) ==> ContentOf(p, data, c, f) == EntryContent(p, data, f.path)
    {
      var i :| 0 <= i < |c.files| && c.files[i] == f;
      EntryOfFile(p, data, i);
    }
  }

  ghost function EntryContent(p: Primitives, data: seq<byte>, path: Path): seq<byte> {
    if Entry(p, data, path).Some? then Entry(p, data, path).value else []
  }

  lemma {:induction false} SelectAll(files: seq<FileRecord>)
    ensures SelectFiles(None, files) == files
  {
    if files != [] {
      SelectAll(files[..|files| - 1]);
    }
  }
}
