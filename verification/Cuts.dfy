// Where a file is cut, told from its bytes alone.
module Cuts {
  import opened Bytes
  import opened Sequences
  import opened Chunker
  import opened Chunking

  predicate EndsInZeros(x: Word) {
    x.bits % 0x40000 == 0
  }

  // The hash of the 64 bytes in front of e, computed from nothing, ends in 18
  // zero bits.
  predicate ZeroHash(gear: Gear, data: seq<byte>, e: nat)
    requires WINDOW_SIZE <= e <= |data|
  {
    EndsInZeros(WindowHash(gear, data[e - 64..e]))
  }

  // A chunk that starts at s ends at e: at the first place 64 KiB or more
  // behind s with a zero hash, at the latest 1 MiB behind s, or where the file
  // ends.
  ghost predicate EndsAt(gear: Gear, data: seq<byte>, s: nat, e: nat) {
    && s < e <= |data| && e - s <= 1048576
    && (forall b: nat :: s + 65536 <= b < e ==> !ZeroHash(gear, data, b))
    && (e == |data| || e - s == 1048576 || (e - s >= 65536 && ZeroHash(gear, data, e)))
  }

  // The chunks lie between consecutive places, from s to the end of the file.
  ghost predicate CutAlong(gear: Gear, data: seq<byte>, s: nat, places: seq<nat>, chunks: seq<seq<byte>>) {
    && |places| == |chunks| + 1 && places[0] == s && places[|chunks|] == |data|
    && forall i :: 0 <= i < |chunks| ==>
         EndsAt(gear, data, places[i], places[i + 1]) && chunks[i] == data[places[i]..places[i + 1]]
  }

  lemma MaskIsRemainder(x: Word)
    ensures x.bits & BOUNDARY_MASK == 0 <==> EndsInZeros(x)
  {
  }

  lemma DecisionOn(x: Word, len: nat)
    ensures ShouldCut(x, len) <==> len >= 1048576 || (len >= 65536 && EndsInZeros(x))
  {
    hide EndsInZeros;
    MaskIsRemainder(x);
  }

  // The loop's decision after the byte in front of e.
  lemma CutDecision(gear: Gear, data: seq<byte>, s: nat, e: nat)
    requires s <= e <= |data|
    ensures ShouldCut(StateAfter(gear, data[..e]), e - s)
      <==> e - s >= 1048576 || (e - s >= 65536 && ZeroHash(gear, data, e))
  {
    hide ShouldCut, EndsInZeros, WindowHash;
    DecisionOn(StateAfter(gear, data[..e]), e - s);
    if e - s >= 65536 {
      assert LastWindow(data[..e]) == data[e - 64..e];
    }
  }

  // No cut was due between s and p.
  ghost predicate Uncut(gear: Gear, data: seq<byte>, s: nat, p: nat)
    requires p <= |data|
  {
    p - s < 1048576 && forall b: nat :: s + 65536 <= b <= p ==> !ZeroHash(gear, data, b)
  }

  // The loop cuts where the chunk under way ends, and nowhere before.
  lemma {:induction false} FirstCut(gear: Gear, data: seq<byte>, s: nat, p: nat) returns (e: nat)
    requires s <= p <= |data| && s < |data| && Uncut(gear, data, s, p)
    ensures EndsAt(gear, data, s, e)
    ensures ChunksFrom(gear, data[..p], data[s..p], data[p..])
         == [data[s..e]] + ChunksFrom(gear, data[..e], [], data[e..])
    decreases |data| - p
  {
    hide StateAfter, ShouldCut, ZeroHash;
    if p == |data| {
      e := p;
      assert data[p..] == [] && data[s..p] != [];
    } else {
      var q := p + 1;
      CutDecision(gear, data, s, q);
      assert data[..p] + [data[p..][0]] == data[..q];
      assert data[s..p] + [data[p..][0]] == data[s..q];
      assert data[p..][1..] == data[q..];
      if ShouldCut(StateAfter(gear, data[..q]), q - s) {
        e := q;
      } else {
        e := FirstCut(gear, data, s, q);
      }
    }
  }

  lemma {:induction false} CutsFrom(gear: Gear, data: seq<byte>, s: nat) returns (places: seq<nat>)
    requires s <= |data|
    ensures CutAlong(gear, data, s, places, ChunksFrom(gear, data[..s], [], data[s..]))
    decreases |data| - s
  {
    hide EndsAt;
    if s == |data| {
      places := [s];
    } else {
      assert data[s..s] == [];
      var e := FirstCut(gear, data, s, s);
      EndsBehind(gear, data, s, e);
      var later := CutsFrom(gear, data, e);
      places := [s] + later;
    }
  }

  lemma EndsBehind(gear: Gear, data: seq<byte>, s: nat, e: nat)
    requires EndsAt(gear, data, s, e)
    ensures s < e <= |data|
  {
  }

  lemma EndUnique(gear: Gear, data: seq<byte>, s: nat, e: nat, e': nat)
    requires EndsAt(gear, data, s, e) && EndsAt(gear, data, s, e')
    ensures e == e'
  {
    hide ZeroHash;
  }

  lemma {:induction false} CutsUnique(gear: Gear, data: seq<byte>, s: nat, a: seq<nat>, b: seq<nat>,
                                      chunks: seq<seq<byte>>, others: seq<seq<byte>>)
    requires CutAlong(gear, data, s, a, chunks) && CutAlong(gear, data, s, b, others)
    ensures chunks == others
    decreases |chunks|
  {
    hide EndsAt;
    if chunks != [] && others != [] {
      EndUnique(gear, data, s, a[1], b[1]);
      CutsUnique(gear, data, a[1], a[1..], b[1..], chunks[1..], others[1..]);
      assert chunks == [chunks[0]] + chunks[1..] && others == [others[0]] + others[1..];
    } else if chunks != [] {
      EndsBehind(gear, data, a[0], a[1]);
    } else if others != [] {
      EndsBehind(gear, data, b[0], b[1]);
    }
  }

  // The chunks of a file are exactly the pieces between the places so
  // determined.
  lemma CutsOfFile(gear: Gear, data: seq<byte>, chunks: seq<seq<byte>>)
    ensures chunks == Chunks(gear, data) <==> exists places :: CutAlong(gear, data, 0, places, chunks)
  {
    hide ChunksFrom, EndsAt;
    var places := CutsFrom(gear, data, 0);
    assert data[..0] == [] && data[0..] == data;
    if exists others :: CutAlong(gear, data, 0, others, chunks) {
      var others :| CutAlong(gear, data, 0, others, chunks);
      CutsUnique(gear, data, 0, others, places, chunks, Chunks(gear, data));
    }
  }
}
