// Which files hold a well-formed framed stream, and what a stream written over
// some data looks like frame by frame.
module Tiling {
  import opened Bytes
  import opened Sequences
  import opened FramedStream

  function Slice(file: seq<byte>, at: nat, n: nat): (s: seq<byte>)
    ensures at + n <= |file| ==> |s| == n
  {
    if at + n <= |file| then file[at..at + n] else []
  }

  function FrameOffset(l: Layout, start: nat, i: nat): nat {
    start + i * l.Stride()
  }

  // The file carries, from `start` on, frames 0..k-1 full and non-final, then
  // the final frame k with `plain` bytes, and nothing else.
  ghost predicate Tiled(file: seq<byte>, l: Layout, start: nat, k: nat, plain: nat)
    requires l.WellFormed()
  {
    && plain <= l.frameSize
    && k <= U64_MAX
    && |file| == FrameOffset(l, start, k) + FRAME_HEADER_SIZE + plain + TAG_SIZE
    && (forall i: nat :: i < k ==> FullFrameAt(file, l, start, i))
    && FrameHeaderAt(file, l, start, k, InfoFor(k, plain, true))
  }

  ghost predicate FrameHeaderAt(file: seq<byte>, l: Layout, start: nat, i: nat, f: FrameInfo)
    requires l.WellFormed()
  {
    Slice(file, FrameOffset(l, start, i), FRAME_HEADER_SIZE) == EncodeFrameHeader(l.frameMagic, f)
  }

  ghost predicate FullFrameAt(file: seq<byte>, l: Layout, start: nat, i: nat)
    requires l.WellFormed()
  {
    FrameHeaderAt(file, l, start, i, InfoFor(i, l.frameSize, false))
  }

  lemma OffsetSteps(l: Layout, start: nat, i: nat, j: nat)
    requires i <= j
    ensures FrameOffset(l, start, i + 1) == FrameOffset(l, start, i) + l.Stride()
    ensures FrameOffset(l, start, i) <= FrameOffset(l, start, j)
    ensures i < j ==> FrameOffset(l, start, i) + l.Stride() <= FrameOffset(l, start, j)
    ensures i <= i * l.Stride() <= FrameOffset(l, start, i)
  {
    Monotone(i, j, l.Stride());
    if i < j {
      Monotone(i + 1, j, l.Stride());
    }
    assert (i + 1) * l.Stride() == i * l.Stride() + l.Stride();
    AtLeast(i, l.Stride());
  }

  lemma AtLeast(i: nat, d: nat)
    requires d >= 1
    ensures i <= i * d
  {
  }

  // Every frame a tiling speaks of lies inside the file.
  lemma TiledInside(file: seq<byte>, l: Layout, start: nat, k: nat, plain: nat, i: nat)
    requires l.WellFormed() && Tiled(file, l, start, k, plain) && i <= k
    ensures FrameOffset(l, start, i) + FRAME_HEADER_SIZE + (if i < k then l.frameSize else plain) + TAG_SIZE <= |file|
    ensures FrameHeaderAt(file, l, start, i,
              if i < k then InfoFor(i, l.frameSize, false) else InfoFor(k, plain, true))
  {
    OffsetSteps(l, start, i, k);
    if i < k {
      assert FullFrameAt(file, l, start, i);
    }
  }

  // A file is tiled in at most one way.
  lemma TilingUnique(file: seq<byte>, l: Layout, start: nat, k: nat, plain: nat, k': nat, plain': nat)
    requires l.WellFormed()
    requires Tiled(file, l, start, k, plain) && Tiled(file, l, start, k', plain')
    ensures k == k' && plain == plain'
  {
    if k < k' {
      FinalIsLast(file, l, start, k, plain, k', plain');
    } else if k' < k {
      FinalIsLast(file, l, start, k', plain', k, plain);
    }
  }

  lemma FinalIsLast(file: seq<byte>, l: Layout, start: nat, k: nat, plain: nat, k': nat, plain': nat)
    requires l.WellFormed()
    requires FrameHeaderAt(file, l, start, k, InfoFor(k, plain, true))
    requires Tiled(file, l, start, k', plain')
    ensures k' <= k
  {
    if k < k' {
      assert FullFrameAt(file, l, start, k);
      FlagsDiffer(l.frameMagic, InfoFor(k, plain, true), InfoFor(k, l.frameSize, false));
    }
  }

  lemma FlagsDiffer(magic: seq<byte>, f: FrameInfo, g: FrameInfo)
    requires |magic| == 4 && f.last && !g.last
    ensures EncodeFrameHeader(magic, f) != EncodeFrameHeader(magic, g)
  {
    assert EncodeFrameHeader(magic, f)[4] == 1;
    assert EncodeFrameHeader(magic, g)[4] == 0;
  }

  // The plaintext of frame i: its header read again, its body opened and its
  // length checked.
  function FrameText(file: seq<byte>, l: Layout, start: nat, i: nat): Option<seq<byte>>
    requires l.WellFormed()
  {
    var at := FrameOffset(l, start, i);
    if at + FRAME_HEADER_SIZE > |file| then None
    else
      var h := file[at..at + FRAME_HEADER_SIZE];
      var decoded := DecodeFrameHeader(l.frameMagic, l.frameSize, h);
      if decoded.Err? || decoded.value.sequence != i then None
      else if at + FRAME_HEADER_SIZE + decoded.value.cipherLen > |file| then None
      else
        var body := file[at + FRAME_HEADER_SIZE..at + FRAME_HEADER_SIZE + decoded.value.cipherLen];
        var text := l.cipher.unseal(Nonce(l, i), l.header + h, body);
        if text.Some? && |text.value| == decoded.value.plainLen then text else None
  }

  lemma FrameTextLength(file: seq<byte>, l: Layout, start: nat, k: nat, plain: nat, i: nat)
    requires l.WellFormed() && Tiled(file, l, start, k, plain) && i <= k
    requires FrameText(file, l, start, i).Some?
    ensures |FrameText(file, l, start, i).value| == if i < k then l.frameSize else plain
  {
    hide EncodeFrameHeader, DecodeFrameHeader;
    TiledInside(file, l, start, k, plain, i);
    var f := if i < k then InfoFor(i, l.frameSize, false) else InfoFor(k, plain, true);
    var at := FrameOffset(l, start, i);
    FrameHeaderCodec(l.frameMagic, l.frameSize, file[at..at + FRAME_HEADER_SIZE], f);
  }

  // ------------------------------------------------------- written streams

  lemma SealFrameLength(l: Layout, i: nat, text: seq<byte>, last: bool)
    requires l.WellFormed() && l.cipher.Lawful()
    ensures |SealFrame(l, i, text, last)| == FRAME_HEADER_SIZE + |text| + TAG_SIZE
  {
  }

  lemma {:induction false} SealAllLength(l: Layout, blocks: seq<seq<byte>>)
    requires l.WellFormed() && l.cipher.Lawful() && AllSized(blocks, l.frameSize)
    ensures |SealAll(l, blocks)| == |blocks| * l.Stride()
  {
    hide SealFrame;
    if blocks != [] {
      var n := |blocks| - 1;
      SealAllLength(l, blocks[..n]);
      SealFrameLength(l, n, blocks[n], false);
      assert |blocks| * l.Stride() == n * l.Stride() + l.Stride();
    }
  }

  // Frame i sits in the run of full frames at a multiple of the stride.
  lemma {:induction false} SealAllAt(l: Layout, blocks: seq<seq<byte>>, i: nat)
    requires l.WellFormed() && l.cipher.Lawful() && AllSized(blocks, l.frameSize)
    requires i < |blocks|
    ensures i * l.Stride() + l.Stride() <= |SealAll(l, blocks)|
    ensures SealAll(l, blocks)[i * l.Stride()..i * l.Stride() + l.Stride()] == SealFrame(l, i, blocks[i], false)
  {
    hide SealFrame, SealAll;
    var n := |blocks| - 1;
    var full, final := SealAll(l, blocks[..n]), SealFrame(l, n, blocks[n], false);
    SealAllLast(l, blocks);
    if i < n {
      SealAllAt(l, blocks[..n], i);
      InFront(full, final, i * l.Stride(), i * l.Stride() + l.Stride());
    } else {
      AtTheEnd(full, final);
    }
  }

  lemma SealAllLast(l: Layout, blocks: seq<seq<byte>>)
    requires l.WellFormed() && l.cipher.Lawful() && AllSized(blocks, l.frameSize) && blocks != []
    ensures var n := |blocks| - 1;
      && SealAll(l, blocks) == SealAll(l, blocks[..n]) + SealFrame(l, n, blocks[n], false)
      && |SealAll(l, blocks[..n])| == n * l.Stride() && |SealFrame(l, n, blocks[n], false)| == l.Stride()
  {
    hide SealFrame;
    var n := |blocks| - 1;
    SealAllLength(l, blocks[..n]);
    SealFrameLength(l, n, blocks[n], false);
  }

  // Where frame i of a written stream sits in the file.
  lemma StreamFrameAt(before: seq<byte>, l: Layout, blocks: seq<seq<byte>>, rest: seq<byte>, i: nat)
    requires l.WellFormed() && l.cipher.Lawful() && AllSized(blocks, l.frameSize) && i <= |blocks|
    ensures var file := before + (l.header + SealAll(l, blocks) + SealFrame(l, |blocks|, rest, true));
      var frame := if i < |blocks| then SealFrame(l, i, blocks[i], false) else SealFrame(l, i, rest, true);
      Slice(file, FrameOffset(l, |before| + |l.header|, i), |frame|) == frame
  {
    hide SealFrame, SealAll;
    var full, final := SealAll(l, blocks), SealFrame(l, |blocks|, rest, true);
    var lead := before + l.header;
    assert before + (l.header + full + final) == lead + full + final;
    if i < |blocks| {
      FullFrameSits(lead, l, blocks, final, i);
    } else {
      SealAllLength(l, blocks);
      SliceOfEnd(lead + full, final);
    }
  }

  lemma FullFrameSits(lead: seq<byte>, l: Layout, blocks: seq<seq<byte>>, final: seq<byte>, i: nat)
    requires l.WellFormed() && l.cipher.Lawful() && AllSized(blocks, l.frameSize) && i < |blocks|
    ensures var frame := SealFrame(l, i, blocks[i], false);
      Slice(lead + SealAll(l, blocks) + final, FrameOffset(l, |lead|, i), |frame|) == frame
  {
    hide SealFrame, SealAll;
    SealAllAt(l, blocks, i);
    SealFrameLength(l, i, blocks[i], false);
    SliceOfMiddle(lead, SealAll(l, blocks), final, i * l.Stride(), l.Stride());
  }

  lemma SliceOfMiddle(a: seq<byte>, b: seq<byte>, c: seq<byte>, at: nat, n: nat)
    requires at + n <= |b|
    ensures Slice(a + b + c, |a| + at, n) == b[at..at + n]
  {
  }

  lemma SliceOfEnd(a: seq<byte>, b: seq<byte>)
    ensures Slice(a + b, |a|, |b|) == b
  {
  }

  // A sealed frame found in place reads back as its text.
  lemma SealedFrameReads(file: seq<byte>, l: Layout, start: nat, i: nat, text: seq<byte>, last: bool)
    requires l.WellFormed() && l.cipher.Lawful() && i <= U64_MAX
    requires |text| <= l.frameSize && (last || |text| == l.frameSize)
    requires Slice(file, FrameOffset(l, start, i), |SealFrame(l, i, text, last)|) == SealFrame(l, i, text, last)
    ensures FrameHeaderAt(file, l, start, i, InfoFor(i, |text|, last))
    ensures FrameText(file, l, start, i) == Some(text)
  {
    hide DecodeFrameHeader;
    var f := InfoFor(i, |text|, last);
    var h := EncodeFrameHeader(l.frameMagic, f);
    var body := l.cipher.seal(Nonce(l, i), l.header + h, text);
    var at := FrameOffset(l, start, i);
    var frame := SealFrame(l, i, text, last);
    assert frame == h + body;
    assert file[at..at + FRAME_HEADER_SIZE] == file[at..at + |frame|][..FRAME_HEADER_SIZE] == h;
    assert file[at + FRAME_HEADER_SIZE..at + |frame|] == file[at..at + |frame|][FRAME_HEADER_SIZE..] == body;
    FrameHeaderCodec(l.frameMagic, l.frameSize, h, f);
  }

  // What a finished writer leaves in the file is tiled, and every frame reads
  // back as the block it carries.
  lemma WrittenStreamTiled(before: seq<byte>, l: Layout, data: seq<byte>)
    requires l.WellFormed() && l.cipher.Lawful()
    requires Quot(|data|, l.frameSize) <= U64_MAX
    ensures var file, start := before + StreamBytes(l, data), |before| + |l.header|;
      var blocks, rest := Blocks(l.frameSize, data), Remainder(l.frameSize, data);
      && Tiled(file, l, start, |blocks|, |rest|)
      && (forall i: nat :: i < |blocks| ==> FrameText(file, l, start, i) == Some(blocks[i]))
      && FrameText(file, l, start, |blocks|) == Some(rest)
  {
    hide SealFrame, SealAll, FrameText, EncodeFrameHeader, Blocks, Remainder;
    var file, start := before + StreamBytes(l, data), |before| + |l.header|;
    var blocks, rest := Blocks(l.frameSize, data), Remainder(l.frameSize, data);
    BlocksOf(l.frameSize, data);
    FrameCounts(l, data);
    SealAllLength(l, blocks);
    SealFrameLength(l, |blocks|, rest, true);
    forall i: nat | i <= |blocks|
      ensures i < |blocks| ==> FullFrameAt(file, l, start, i) && FrameText(file, l, start, i) == Some(blocks[i])
      ensures i == |blocks| ==>
        FrameHeaderAt(file, l, start, i, InfoFor(i, |rest|, true)) && FrameText(file, l, start, i) == Some(rest)
    {
      StreamFrameAt(before, l, blocks, rest, i);
      if i < |blocks| {
        SealedFrameReads(file, l, start, i, blocks[i], false);
      } else {
        SealedFrameReads(file, l, start, i, rest, true);
      }
    }
  }

  // ------------------------------------------------------------- plaintext

  // Byte i of the plaintext; zero where its frame does not open.
  function PlainByte(file: seq<byte>, l: Layout, start: nat, i: nat): byte
    requires l.WellFormed()
  {
    var text := FrameText(file, l, start, Quot(i, l.frameSize));
    var within := Rem(i, l.frameSize);
    if text.Some? && within < |text.value| then text.value[within] else 0
  }

  function Plaintext(file: seq<byte>, l: Layout, start: nat, n: nat): (s: seq<byte>)
    requires l.WellFormed()
    ensures |s| == n
  {
    seq(n, i requires 0 <= i < n => PlainByte(file, l, start, i))
  }

  // The frames holding bytes from..to all open.
  ghost predicate Readable(file: seq<byte>, l: Layout, start: nat, from: nat, to: nat)
    requires l.WellFormed()
  {
    forall i: nat :: from <= i < to ==> FrameText(file, l, start, Quot(i, l.frameSize)).Some?
  }

  lemma {:induction false} FlattenIndex(blocks: seq<seq<byte>>, size: nat, q: nat, r: nat)
    requires AllSized(blocks, size) && q < |blocks| && r < size
    ensures q * size + r < |Flatten(blocks)| && Flatten(blocks)[q * size + r] == blocks[q][r]
  {
    var n := |blocks| - 1;
    SizedTotal(blocks[..n], size);
    if q < n {
      FlattenIndex(blocks[..n], size, q, r);
    }
  }

  // Byte i of the data is byte i % size of block i / size.
  lemma ByteInBlock(data: seq<byte>, size: nat, i: nat)
    requires size > 0 && i < |data|
    ensures var blocks, rest := Blocks(size, data), Remainder(size, data);
      var q, r := Quot(i, size), Rem(i, size);
      && q <= |blocks|
      && var block := if q < |blocks| then blocks[q] else rest;
         r < |block| && block[r] == data[i]
  {
    hide Blocks, Remainder, Quot, Rem;
    var blocks, rest := Blocks(size, data), Remainder(size, data);
    var q, r := Quot(i, size), Rem(i, size);
    BlocksOf(size, data);
    SizedTotal(blocks, size);
    hide Flatten;
    assert data == Flatten(blocks) + rest;
    if q < |blocks| {
      FlattenIndex(blocks, size, q, r);
    } else if q > |blocks| {
      Monotone(|blocks| + 1, q, size);
    }
  }

  // The plaintext of a written stream is the data written.
  lemma WrittenStreamReads(before: seq<byte>, l: Layout, data: seq<byte>)
    requires l.WellFormed() && l.cipher.Lawful()
    requires Quot(|data|, l.frameSize) <= U64_MAX
    ensures var file, start := before + StreamBytes(l, data), |before| + |l.header|;
      && Plaintext(file, l, start, |data|) == data
      && Readable(file, l, start, 0, |data|)
  {
    hide SealFrame, SealAll, FrameText, StreamBytes, Blocks, Remainder, Quot, Rem, Tiled;
    var file, start := before + StreamBytes(l, data), |before| + |l.header|;
    WrittenStreamTiled(before, l, data);
    forall i: nat | i < |data|
      ensures FrameText(file, l, start, Quot(i, l.frameSize)).Some?
      ensures PlainByte(file, l, start, i) == data[i]
    {
      ByteInBlock(data, l.frameSize, i);
    }
  }
}
