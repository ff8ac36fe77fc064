// How a file's bytes are cut into chunks: the inner loop of packing a file,
// as a function of the bytes alone.
module Chunking {
  import opened Bytes
  import opened Sequences
  import opened Chunker

  const MAX_CHUNKS_PER_FILE: nat := 1048576

  // The chunks still to come, when `history` has been pushed into the hasher,
  // the bytes of `chunk` are pending and `rest` has not been read yet. The
  // hasher is not reset at a cut.
  function ChunksFrom(gear: Gear, history: seq<byte>, chunk: seq<byte>, rest: seq<byte>): seq<seq<byte>>
    decreases |rest|
  {
    if rest == [] then
      if chunk == [] then [] else [chunk]
    else
      var seen := history + [rest[0]];
      var grown := chunk + [rest[0]];
      if ShouldCut(StateAfter(gear, seen), |grown|) then
        [grown] + ChunksFrom(gear, seen, [], rest[1..])
      else
        ChunksFrom(gear, seen, grown, rest[1..])
  }

  function Chunks(gear: Gear, data: seq<byte>): seq<seq<byte>> {
    ChunksFrom(gear, [], [], data)
  }

  // No byte is lost, repeated or moved.
  lemma {:induction false} ChunksConcatenate(gear: Gear, history: seq<byte>, chunk: seq<byte>, rest: seq<byte>)
    ensures Flatten(ChunksFrom(gear, history, chunk, rest)) == chunk + rest
    decreases |rest|
  {
    hide StateAfter, ShouldCut;
    if rest == [] {
      FlattenSnoc([], chunk);
    } else {
      var seen := history + [rest[0]];
      var grown := chunk + [rest[0]];
      assert grown + rest[1..] == chunk + rest;
      if ShouldCut(StateAfter(gear, seen), |grown|) {
        ChunksConcatenate(gear, seen, [], rest[1..]);
        FlattenCons(grown, ChunksFrom(gear, seen, [], rest[1..]));
      } else {
        ChunksConcatenate(gear, seen, grown, rest[1..]);
      }
    }
  }

  // Sizes of a run of chunks: all of them bounded, all but the last at least
  // the minimum.
  predicate WellSized(chunks: seq<seq<byte>>) {
    && (forall i :: 0 <= i < |chunks| ==> 1 <= |chunks[i]| <= MAX_CHUNK_SIZE)
    && (forall i :: 0 <= i < |chunks| - 1 ==> MIN_CHUNK_SIZE <= |chunks[i]|)
  }

  lemma {:induction false} ChunksWellSized(gear: Gear, history: seq<byte>, chunk: seq<byte>, rest: seq<byte>)
    requires |chunk| < MAX_CHUNK_SIZE
    ensures WellSized(ChunksFrom(gear, history, chunk, rest))
    decreases |rest|
  {
    hide StateAfter;
    if rest != [] {
      var seen := history + [rest[0]];
      var grown := chunk + [rest[0]];
      if ShouldCut(StateAfter(gear, seen), |grown|) {
        ChunksWellSized(gear, seen, [], rest[1..]);
      } else {
        ChunksWellSized(gear, seen, grown, rest[1..]);
      }
    }
  }

  predicate LongEnough(chunks: seq<seq<byte>>) {
    forall i :: 0 <= i < |chunks| ==> MIN_CHUNK_SIZE <= |chunks[i]|
  }

  // n chunks hold more than (n-1) minimum sizes and at most n maximum sizes.
  lemma {:induction false} TotalSize(chunks: seq<seq<byte>>)
    requires WellSized(chunks)
    ensures |Flatten(chunks)| <= |chunks| * MAX_CHUNK_SIZE
    ensures chunks != [] ==> (|chunks| - 1) * MIN_CHUNK_SIZE < |Flatten(chunks)|
  {
    if chunks != [] {
      var init := chunks[..|chunks| - 1];
      TotalSize(init);
      if init != [] {
        assert |init[|init| - 1]| >= MIN_CHUNK_SIZE;
        AllFull(init);
      }
    }
  }

  lemma {:induction false} AllFull(chunks: seq<seq<byte>>)
    requires LongEnough(chunks)
    ensures |chunks| * MIN_CHUNK_SIZE <= |Flatten(chunks)|
  {
    if chunks != [] {
      AllFull(chunks[..|chunks| - 1]);
    }
  }

  // Every file's chunks give back the file, are well sized, and their number
  // is bounded on both sides by the size of the file.
  lemma ChunksOfFile(gear: Gear, data: seq<byte>)
    ensures Flatten(Chunks(gear, data)) == data
    ensures WellSized(Chunks(gear, data))
    ensures |data| <= |Chunks(gear, data)| * MAX_CHUNK_SIZE
    ensures data != [] ==> (|Chunks(gear, data)| - 1) * MIN_CHUNK_SIZE < |data|
    ensures data == [] <==> Chunks(gear, data) == []
  {
    ChunksConcatenate(gear, [], [], data);
    assert [] + data == data;
    ChunksWellSized(gear, [], [], data);
    TotalSize(Chunks(gear, data));
  }

  // The limit on chunks per file: never hit up to 64 GiB, always beyond 1 TiB.
  lemma ChunkLimit(gear: Gear, data: seq<byte>)
    ensures |data| <= MAX_CHUNKS_PER_FILE * MIN_CHUNK_SIZE ==> |Chunks(gear, data)| <= MAX_CHUNKS_PER_FILE
    ensures |data| > MAX_CHUNKS_PER_FILE * MAX_CHUNK_SIZE ==> |Chunks(gear, data)| > MAX_CHUNKS_PER_FILE
  {
    ChunksOfFile(gear, data);
  }

  // ------------------------------------------------------------ short chunks

  // The bytes left after the last place where the loop cuts.
  function Pending(gear: Gear, history: seq<byte>, chunk: seq<byte>, rest: seq<byte>): seq<byte>
    decreases |rest|
  {
    if rest == [] then chunk
    else
      var seen := history + [rest[0]];
      var grown := chunk + [rest[0]];
      Pending(gear, seen, if ShouldCut(StateAfter(gear, seen), |grown|) then [] else grown, rest[1..])
  }

  function Leftover(gear: Gear, data: seq<byte>): seq<byte> {
    Pending(gear, [], [], data)
  }

  // Chunks made by a cut are long enough; what is left becomes the last chunk
  // whatever its size.
  lemma {:induction false} LastChunk(gear: Gear, history: seq<byte>, chunk: seq<byte>, rest: seq<byte>)
    ensures var all, left := ChunksFrom(gear, history, chunk, rest), Pending(gear, history, chunk, rest);
      if left == [] then LongEnough(all)
      else all != [] && all[|all| - 1] == left && LongEnough(all[..|all| - 1])
    decreases |rest|
  {
    hide StateAfter;
    if rest != [] {
      var seen := history + [rest[0]];
      var grown := chunk + [rest[0]];
      if ShouldCut(StateAfter(gear, seen), |grown|) {
        LastChunk(gear, seen, [], rest[1..]);
        var tail := ChunksFrom(gear, seen, [], rest[1..]);
        if tail != [] {
          assert ([grown] + tail)[..|tail|] == [grown] + tail[..|tail| - 1];
        }
      } else {
        LastChunk(gear, seen, grown, rest[1..]);
      }
    }
  }

  // A file has a chunk below the minimum exactly when fewer bytes than that,
  // but some, are left after its last cut; only the last chunk is then short.
  lemma ShortChunk(gear: Gear, data: seq<byte>)
    ensures var all, left := Chunks(gear, data), Leftover(gear, data);
      && (LongEnough(all) <==> left == [] || |left| >= MIN_CHUNK_SIZE)
      && (left != [] ==> all != [] && all[|all| - 1] == left)
  {
    hide ChunksFrom, Pending;
    LastChunk(gear, [], [], data);
    var all := Chunks(gear, data);
    if LongEnough(all) && Leftover(gear, data) != [] {
      assert all[|all| - 1] == Leftover(gear, data);
    }
    if |Leftover(gear, data)| >= MIN_CHUNK_SIZE {
      assert all == all[..|all| - 1] + [all[|all| - 1]];
    }
  }

  lemma {:induction false} NoCutYet(gear: Gear, history: seq<byte>, chunk: seq<byte>, rest: seq<byte>)
    requires 0 < |chunk| + |rest| < MIN_CHUNK_SIZE
    ensures ChunksFrom(gear, history, chunk, rest) == [chunk + rest]
    decreases |rest|
  {
    hide StateAfter;
    if rest == [] {
      assert chunk + rest == chunk;
    } else {
      NoCutYet(gear, history + [rest[0]], chunk + [rest[0]], rest[1..]);
      assert chunk + [rest[0]] + rest[1..] == chunk + rest;
    }
  }

  // A file below the minimum is one short chunk.
  lemma ShortFile(gear: Gear, data: seq<byte>)
    requires 0 < |data| < MIN_CHUNK_SIZE
    ensures Chunks(gear, data) == [data]
  {
    NoCutYet(gear, [], [], data);
    assert [] + data == data;
  }

  // ------------------------------------------------------ memoryless at cuts

  // What was pushed before the pending chunk began has no influence: a cut
  // needs a pending chunk much longer than the window.
  lemma {:induction false} HistoryIrrelevant(
    gear: Gear, before: seq<byte>, before': seq<byte>, chunk: seq<byte>, rest: seq<byte>)
    ensures ChunksFrom(gear, before + chunk, chunk, rest) == ChunksFrom(gear, before' + chunk, chunk, rest)
    decreases |rest|
  {
    hide StateAfter;
    if rest != [] {
      var grown := chunk + [rest[0]];
      var seen, seen' := before + grown, before' + grown;
      assert (before + chunk) + [rest[0]] == seen;
      assert (before' + chunk) + [rest[0]] == seen';
      if |grown| >= MIN_CHUNK_SIZE {
        StateForgets(gear, before, grown);
        StateForgets(gear, before', grown);
      }
      if ShouldCut(StateAfter(gear, seen), |grown|) {
        HistoryIrrelevant(gear, seen, seen', [], rest[1..]);
        assert seen + [] == seen && seen' + [] == seen';
      } else {
        HistoryIrrelevant(gear, before, before', grown, rest[1..]);
      }
    }
  }

  lemma CutForgets(gear: Gear, history: seq<byte>, rest: seq<byte>)
    ensures ChunksFrom(gear, history, [], rest) == Chunks(gear, rest)
  {
    HistoryIrrelevant(gear, history, [], [], rest);
    assert history + [] == history;
  }

  lemma {:induction false} SuffixChunks(gear: Gear, history: seq<byte>, chunk: seq<byte>, rest: seq<byte>, i: nat)
    requires 1 <= i <= |ChunksFrom(gear, history, chunk, rest)|
    ensures var all := ChunksFrom(gear, history, chunk, rest);
      all[i..] == Chunks(gear, Flatten(all[i..]))
    decreases |rest|
  {
    hide StateAfter, ShouldCut;
    var all := ChunksFrom(gear, history, chunk, rest);
    if rest == [] {
      assert all[i..] == [];
    } else {
      var seen := history + [rest[0]];
      var grown := chunk + [rest[0]];
      if ShouldCut(StateAfter(gear, seen), |grown|) {
        var tail := ChunksFrom(gear, seen, [], rest[1..]);
        assert all[i..] == tail[i - 1..];
        if i == 1 {
          CutForgets(gear, seen, rest[1..]);
          ChunksConcatenate(gear, seen, [], rest[1..]);
          assert tail[0..] == tail;
          assert [] + rest[1..] == rest[1..];
        } else {
          SuffixChunks(gear, seen, [], rest[1..], i - 1);
        }
      } else {
        SuffixChunks(gear, seen, grown, rest[1..], i);
      }
    }
  }

  // Chunking is memoryless at cuts: from any cut on, the chunks of a file are
  // those of the remaining bytes taken as a file of their own.
  lemma MemorylessAtCuts(gear: Gear, data: seq<byte>, i: nat)
    requires i <= |Chunks(gear, data)|
    ensures var all := Chunks(gear, data);
      var p := |Flatten(all[..i])|;
      p <= |data| && data[..p] == Flatten(all[..i]) && all[i..] == Chunks(gear, data[p..])
  {
    var all := Chunks(gear, data);
    ChunksOfFile(gear, data);
    FlattenAppend(all[..i], all[i..]);
    assert all[..i] + all[i..] == all;
    var p := |Flatten(all[..i])|;
    assert data[p..] == Flatten(all[i..]);
    if i == 0 {
      assert all[0..] == all && data[0..] == data;
    } else {
      SuffixChunks(gear, [], [], data, i);
    }
  }

  // Two files that share a suffix, each with a cut where it starts, share all
  // the chunks of that suffix.
  lemma SharedSuffix(gear: Gear, a: seq<byte>, b: seq<byte>, i: nat, j: nat, suffix: seq<byte>)
    requires i <= |Chunks(gear, a)| && j <= |Chunks(gear, b)|
    requires a == Flatten(Chunks(gear, a)[..i]) + suffix
    requires b == Flatten(Chunks(gear, b)[..j]) + suffix
    ensures Chunks(gear, a)[i..] == Chunks(gear, b)[j..] == Chunks(gear, suffix)
  {
    MemorylessAtCuts(gear, a, i);
    MemorylessAtCuts(gear, b, j);
  }
}
