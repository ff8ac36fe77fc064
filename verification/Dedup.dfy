// Why deduplication works: data shared with an earlier file costs no chunk
// records once the cuts are aligned.
module Dedup {
  import opened Bytes
  import opened Sequences
  import opened Format
  import opened Primitives
  import opened Pack
  import opened Chunking

  ghost predicate AllSeen(p: Primitives, st: PackState, chunks: seq<seq<byte>>) {
    forall i :: 0 <= i < |chunks| ==> p.hash(chunks[i]) in st.contents
  }

  lemma {:induction false} SeenStays(p: Primitives, level: nat, st: PackState, chunks: seq<seq<byte>>)
    requires PackChunks(p, level, st, chunks).Some?
    ensures st.contents.Keys <= PackChunks(p, level, st, chunks).value.contents.Keys
  {
    hide StoredForm, ChunkRecord;
    if chunks != [] {
      SeenStays(p, level, st, chunks[..|chunks| - 1]);
    }
  }

  // Chunks already seen add no record; all their bytes count as saved.
  lemma {:induction false} SeenAddsNothing(p: Primitives, level: nat, st: PackState, before: seq<seq<byte>>,
                                           shared: seq<seq<byte>>)
    requires AllSeen(p, st, shared) && PackChunks(p, level, st, before + shared).Some?
    requires forall i :: 0 <= i < |shared| ==> shared[i] != []
    ensures PackChunks(p, level, st, before).Some?
    ensures var st1, st2 := PackChunks(p, level, st, before).value, PackChunks(p, level, st, before + shared).value;
      && st2.records == st1.records && st2.contents == st1.contents
      && st2.stats.deduplicatedBytes == st1.stats.deduplicatedBytes + |Flatten(shared)|
      && st2.stats.storedBytes == st1.stats.storedBytes
  {
    hide StoredForm, ChunkRecord;
    if shared == [] {
      assert before + shared == before;
    } else {
      var n := |shared| - 1;
      var init, c := shared[..n], shared[n];
      assert before + shared == (before + init) + [c];
      PackChunksSnoc(p, level, st, before + init, c);
      SeenAddsNothing(p, level, st, before, init);
      SeenStays(p, level, st, before + init);
      assert p.hash(c) in st.contents;
    }
  }

  // ----------------------------------------------------------- along a run

  // Packing chunks leaves all of them seen.
  lemma {:induction false} PackedIsSeen(p: Primitives, level: nat, st: PackState, chunks: seq<seq<byte>>)
    requires PackChunks(p, level, st, chunks).Some?
    requires forall i :: 0 <= i < |chunks| ==> chunks[i] != []
    ensures AllSeen(p, PackChunks(p, level, st, chunks).value, chunks)
  {
    hide StoredForm, ChunkRecord;
    if chunks != [] {
      PackedIsSeen(p, level, st, chunks[..|chunks| - 1]);
    }
  }

  lemma ItemSeen(p: Primitives, level: nat, st: PackState, item: Item)
    requires PackItem(p, level, st, item).Some?
    ensures var st' := PackItem(p, level, st, item).value;
      && st.contents.Keys <= st'.contents.Keys
      && (item.Regular? ==> AllSeen(p, st', Chunks(p.gear, Flatten(item.pieces))))
  {
    hide PackChunks, StoredPath, ChunksFrom, Flatten;
    if item.Regular? {
      var content := Flatten(item.pieces);
      ChunksOfFile(p.gear, content);
      SeenStays(p, level, st, Chunks(p.gear, content));
      PackedIsSeen(p, level, st, Chunks(p.gear, content));
    }
  }

  // After any run, the chunks of every file packed in it are seen.
  lemma {:induction false} RunSeen(p: Primitives, level: nat, items: seq<Item>, i: nat)
    requires PackItems(p, level, items).Some? && i < |items| && items[i].Regular?
    ensures AllSeen(p, PackItems(p, level, items).value, Chunks(p.gear, Flatten(items[i].pieces)))
  {
    hide PackItem, Chunks, Flatten;
    var n := |items| - 1;
    ItemSeen(p, level, PackItems(p, level, items[..n]).value, items[n]);
    if i < n {
      RunSeen(p, level, items[..n], i);
    }
  }

  // A file that ends like data whose chunks are all seen, with a cut where the
  // common part starts, adds chunk records only for the part before it.
  lemma SeenSuffixSaved(p: Primitives, level: nat, st: PackState, path: Path, a: seq<byte>, b: seq<byte>,
                          i: nat, j: nat, suffix: seq<byte>)
    requires i <= |Chunks(p.gear, a)| && j <= |Chunks(p.gear, b)|
    requires a == Flatten(Chunks(p.gear, a)[..i]) + suffix
    requires b == Flatten(Chunks(p.gear, b)[..j]) + suffix
    requires AllSeen(p, st, Chunks(p.gear, a))
    requires PackFile(p, level, st, path, b).Some?
    ensures var first := Chunks(p.gear, b)[..j];
      && PackChunks(p, level, st, first).Some?
      && var st1, st2 := PackChunks(p, level, st, first).value, PackFile(p, level, st, path, b).value;
         && st2.records == st1.records + [FileRecordOf(p, path, b)]
         && st2.stats.deduplicatedBytes == st1.stats.deduplicatedBytes + |suffix|
         && st2.stats.storedBytes == st1.stats.storedBytes
  {
    hide ChunksFrom, PackChunks, FileRecordOf;
    var first, shared := Chunks(p.gear, b)[..j], Chunks(p.gear, b)[j..];
    SharedSuffix(p.gear, a, b, i, j, suffix);
    ChunksOfFile(p.gear, suffix);
    assert first + shared == Chunks(p.gear, b);
    forall k | 0 <= k < |shared|
      ensures p.hash(shared[k]) in st.contents
    {
      assert shared[k] == Chunks(p.gear, a)[i + k];
    }
    SeenAddsNothing(p, level, st, first, shared);
  }

  // Two files of one run that end alike, each with a cut where the common part
  // starts: the second adds chunk records only for the part before it, and
  // saves the whole common part.
  lemma SharedSuffixSaved(p: Primitives, level: nat, items: seq<Item>, k: nat, n: nat, i: nat, j: nat, suffix: seq<byte>)
    requires PackItems(p, level, items).Some?
    requires k < n < |items| && items[k].Regular? && items[n].Regular?
    requires var a, b := Flatten(items[k].pieces), Flatten(items[n].pieces);
      && i <= |Chunks(p.gear, a)| && j <= |Chunks(p.gear, b)|
      && a == Flatten(Chunks(p.gear, a)[..i]) + suffix
      && b == Flatten(Chunks(p.gear, b)[..j]) + suffix
    ensures PackItems(p, level, items[..n]).Some? && PackItems(p, level, items[..n + 1]).Some?
    ensures StoredPath(p, items[n].components).Some?
    ensures var b, st := Flatten(items[n].pieces), PackItems(p, level, items[..n]).value;
      var first := Chunks(p.gear, b)[..j];
      && PackChunks(p, level, st, first).Some?
      && var st1, st2 := PackChunks(p, level, st, first).value, PackItems(p, level, items[..n + 1]).value;
         && st2.records == st1.records + [FileRecordOf(p, StoredPath(p, items[n].components).value, b)]
         && st2.stats.deduplicatedBytes == st1.stats.deduplicatedBytes + |suffix|
         && st2.stats.storedBytes == st1.stats.storedBytes
  {
    hide Chunks, Flatten, PackChunks, FileRecordOf, PackFile, StoredPath;
    if PackItems(p, level, items[..n + 1]).None? {
      PackItemsPrefix(p, level, items, n + 1);
    }
    assert items[..n + 1][..n] == items[..n];
    RunSeen(p, level, items[..n], k);
    SeenSuffixSaved(p, level, PackItems(p, level, items[..n]).value, StoredPath(p, items[n].components).value,
                    Flatten(items[k].pieces), Flatten(items[n].pieces), i, j, suffix);
  }
}
