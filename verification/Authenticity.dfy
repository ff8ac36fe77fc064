// What tampering with a stream can achieve. Every theorem supposes that the
// frames of the file that open are frames sealed for one stream of `data`: a
// nonce, associated data and a body that were never sealed together do not
// open.
module Authenticity {
  import opened Bytes
  import opened Sequences
  import opened FramedStream
  import opened Tiling
  import opened Format
  import opened FormatCodec
  import opened Catalog
  import opened FramedReader

  // ---------------------------------------------------- the frames sealed

  // The text of frame j of the stream of `data`, and the frame's two parts.
  function SealedText(l: Layout, data: seq<byte>, j: nat): seq<byte>
    requires l.WellFormed()
  {
    var blocks := Blocks(l.frameSize, data);
    if j < |blocks| then blocks[j] else Remainder(l.frameSize, data)
  }

  function FinalNumber(l: Layout, data: seq<byte>): nat
    requires l.WellFormed()
  {
    |Blocks(l.frameSize, data)|
  }

  function SealedHeader(l: Layout, data: seq<byte>, j: nat): (h: seq<byte>)
    requires l.WellFormed()
    ensures |h| == FRAME_HEADER_SIZE
  {
    EncodeFrameHeader(l.frameMagic, InfoFor(j, |SealedText(l, data, j)|, j == FinalNumber(l, data)))
  }

  function SealedBody(l: Layout, data: seq<byte>, j: nat): seq<byte>
    requires l.WellFormed()
  {
    l.cipher.seal(Nonce(l, j), l.header + SealedHeader(l, data, j), SealedText(l, data, j))
  }

  ghost predicate Sealed(l: Layout, data: seq<byte>, j: nat, nonce: seq<byte>, aad: seq<byte>, body: seq<byte>)
    requires l.WellFormed()
  {
    && j <= FinalNumber(l, data)
    && nonce == Nonce(l, j) && aad == l.header + SealedHeader(l, data, j) && body == SealedBody(l, data, j)
  }

  // ------------------------------------------------------ the frames found

  function FoundHeader(file: seq<byte>, l: Layout, start: nat, i: nat): seq<byte> {
    Slice(file, FrameOffset(l, start, i), FRAME_HEADER_SIZE)
  }

  function FoundBody(file: seq<byte>, l: Layout, start: nat, i: nat, size: nat): seq<byte> {
    Slice(file, FrameOffset(l, start, i) + FRAME_HEADER_SIZE, size + TAG_SIZE)
  }

  // The plaintext bytes that frame i of a tiling declares.
  function Declared(l: Layout, k: nat, plain: nat, i: nat): nat {
    if i < k then l.frameSize else plain
  }

  // Whatever opens in a file tiled under `m` was sealed for `data` under `l`.
  ghost predicate Genuine(file: seq<byte>, m: Layout, start: nat, k: nat, plain: nat, l: Layout, data: seq<byte>)
    requires m.WellFormed() && l.WellFormed()
  {
    forall i: nat :: i <= k && FrameText(file, m, start, i).Some? ==> GenuineFrame(file, m, start, k, plain, l, data, i)
  }

  ghost predicate GenuineFrame(file: seq<byte>, m: Layout, start: nat, k: nat, plain: nat, l: Layout, data: seq<byte>, i: nat)
    requires m.WellFormed() && l.WellFormed()
  {
    exists j: nat :: Sealed(l, data, j, Nonce(m, i), m.header + FoundHeader(file, m, start, i),
                            FoundBody(file, m, start, i, Declared(m, k, plain, i)))
  }

  ghost predicate AllOpen(file: seq<byte>, l: Layout, start: nat, k: nat)
    requires l.WellFormed()
  {
    forall i: nat :: i <= k ==> FrameText(file, l, start, i).Some?
  }

  lemma FrameInfosDiffer(magic: seq<byte>, f: FrameInfo, g: FrameInfo)
    requires |magic| == 4 && EncodeFrameHeader(magic, f) == EncodeFrameHeader(magic, g)
    requires f.plainLen <= U32_MAX && g.plainLen <= U32_MAX
    ensures f.last == g.last && f.plainLen == g.plainLen
  {
    hide ToLE;
    var a, b := EncodeFrameHeader(magic, f), EncodeFrameHeader(magic, g);
    assert a[4] == (if f.last then 1 else 0) && b[4] == (if g.last then 1 else 0);
    assert a[16..20] == ToLE(f.plainLen, 4) && b[16..20] == ToLE(g.plainLen, 4);
    LE32(f.plainLen);
    LE32(g.plainLen);
  }

  lemma NumbersApart(l: Layout, m: Layout, i: nat, j: nat)
    requires l.WellFormed() && m.WellFormed() && i <= U64_MAX && j <= U64_MAX
    requires Nonce(m, i) == Nonce(l, j)
    ensures i == j && m.noncePrefix == l.noncePrefix
  {
    hide ToLE;
    assert Nonce(m, i)[..NONCE_PREFIX_SIZE] == m.noncePrefix && Nonce(l, j)[..NONCE_PREFIX_SIZE] == l.noncePrefix;
    assert Nonce(m, i)[NONCE_PREFIX_SIZE..] == ToLE(i, 8) && Nonce(l, j)[NONCE_PREFIX_SIZE..] == ToLE(j, 8);
    LE64(i);
    LE64(j);
  }

  // A frame that opens is the sealed frame of its own number, under the very
  // header it was sealed under.
  lemma FrameGenuine(file: seq<byte>, m: Layout, start: nat, k: nat, plain: nat, l: Layout, data: seq<byte>, i: nat)
    requires l.WellFormed() && m.WellFormed() && |m.header| == |l.header|
    requires Tiled(file, m, start, k, plain) && Genuine(file, m, start, k, plain, l, data)
    requires FinalNumber(l, data) <= U64_MAX && i <= k && FrameText(file, m, start, i).Some?
    ensures m.header == l.header && m.noncePrefix == l.noncePrefix && i <= FinalNumber(l, data)
    ensures FoundHeader(file, m, start, i) == SealedHeader(l, data, i)
    ensures FoundBody(file, m, start, i, Declared(m, k, plain, i)) == SealedBody(l, data, i)
  {
    hide FrameText, EncodeFrameHeader, SealedText, FrameOffset;
    var h, body := FoundHeader(file, m, start, i), FoundBody(file, m, start, i, Declared(m, k, plain, i));
    var j: nat :| Sealed(l, data, j, Nonce(m, i), m.header + h, body);
    NumbersApart(l, m, i, j);
    assert (m.header + h)[..|m.header|] == m.header && (m.header + h)[|m.header|..] == h;
    var g := SealedHeader(l, data, j);
    assert (l.header + g)[..|l.header|] == l.header && (l.header + g)[|l.header|..] == g;
  }

  function SealedFrame(l: Layout, data: seq<byte>, j: nat): seq<byte>
    requires l.WellFormed()
  {
    SealFrame(l, j, SealedText(l, data, j), j == FinalNumber(l, data))
  }

  lemma SealedTextLength(l: Layout, data: seq<byte>, j: nat)
    requires l.WellFormed() && j <= FinalNumber(l, data)
    ensures |SealedText(l, data, j)| <= l.frameSize
    ensures j < FinalNumber(l, data) ==> |SealedText(l, data, j)| == l.frameSize
  {
    BlocksOf(l.frameSize, data);
  }

  // So it stands in its place whole and reads as the text sealed.
  lemma FrameStands(file: seq<byte>, l: Layout, start: nat, k: nat, plain: nat, data: seq<byte>, i: nat)
    requires l.WellFormed() && l.cipher.Lawful()
    requires Tiled(file, l, start, k, plain) && Genuine(file, l, start, k, plain, l, data)
    requires FinalNumber(l, data) <= U64_MAX && i <= k && FrameText(file, l, start, i).Some?
    ensures i <= FinalNumber(l, data) && (i == k <==> i == FinalNumber(l, data))
    ensures Declared(l, k, plain, i) == |SealedText(l, data, i)|
    ensures Slice(file, FrameOffset(l, start, i), |SealedFrame(l, data, i)|) == SealedFrame(l, data, i)
    ensures FrameText(file, l, start, i) == Some(SealedText(l, data, i))
  {
    hide FrameText, EncodeFrameHeader, SealedText, FrameOffset, Genuine, FinalNumber;
    FrameGenuine(file, l, start, k, plain, l, data, i);
    TiledInside(file, l, start, k, plain, i);
    SealedTextLength(l, data, i);
    var text, last := SealedText(l, data, i), i == FinalNumber(l, data);
    FrameInfosDiffer(l.frameMagic, InfoFor(i, |text|, last),
                     if i < k then InfoFor(i, l.frameSize, false) else InfoFor(k, plain, true));
    SliceJoin(file, FrameOffset(l, start, i), FRAME_HEADER_SIZE, |text| + TAG_SIZE);
    SealFrameLength(l, i, text, last);
    SealedFrameReads(file, l, start, i, text, last);
  }

  lemma SliceJoin(file: seq<byte>, at: nat, n: nat, m: nat)
    requires at + n + m <= |file|
    ensures Slice(file, at, n) + Slice(file, at + n, m) == Slice(file, at, n + m)
  {
  }

  // ---------------------------------------------------------- whole streams

  // Full frames standing one behind the other are the sealed run.
  lemma {:induction false} FramesStand(file: seq<byte>, l: Layout, start: nat, blocks: seq<seq<byte>>)
    requires l.WellFormed() && l.cipher.Lawful() && AllSized(blocks, l.frameSize)
    requires FrameOffset(l, start, |blocks|) <= |file|
    requires forall i: nat :: i < |blocks| ==>
      Slice(file, FrameOffset(l, start, i), l.Stride()) == SealFrame(l, i, blocks[i], false)
    ensures start <= FrameOffset(l, start, |blocks|)
    ensures file[start..FrameOffset(l, start, |blocks|)] == SealAll(l, blocks)
  {
    hide SealFrame;
    if blocks == [] {
      OffsetSteps(l, start, 0, 0);
    } else {
      var n := |blocks| - 1;
      OffsetSteps(l, start, n, n);
      OffsetSteps(l, start, 0, n);
      FramesStand(file, l, start, blocks[..n]);
      Adjacent(file, start, FrameOffset(l, start, n), FrameOffset(l, start, n + 1));
    }
  }

  // A stream whose frames all open is the stream written, byte for byte:
  // nothing was modified, reordered, removed or added.
  lemma AllOpenIsWhole(file: seq<byte>, l: Layout, start: nat, k: nat, plain: nat, data: seq<byte>)
    requires l.WellFormed() && l.cipher.Lawful() && start <= |file|
    requires Tiled(file, l, start, k, plain) && Genuine(file, l, start, k, plain, l, data)
    requires FinalNumber(l, data) <= U64_MAX && AllOpen(file, l, start, k)
    ensures k == FinalNumber(l, data) && plain == |Remainder(l.frameSize, data)|
    ensures l.header + file[start..] == StreamBytes(l, data)
    ensures k * l.frameSize + plain == |data| && Plaintext(file, l, start, |data|) == data
  {
    hide FrameText, EncodeFrameHeader, FrameOffset, Genuine, Blocks, Remainder, SealFrame, Tiled, Plaintext;
    var blocks, rest := Blocks(l.frameSize, data), Remainder(l.frameSize, data);
    BlocksOf(l.frameSize, data);
    FrameStands(file, l, start, k, plain, data, k);
    forall i: nat | i < |blocks|
      ensures Slice(file, FrameOffset(l, start, i), l.Stride()) == SealFrame(l, i, blocks[i], false)
    {
      FrameStands(file, l, start, k, plain, data, i);
      SealFrameLength(l, i, blocks[i], false);
    }
    FinalEnds(file, l, start, k, plain);
    OpenIsReadable(file, l, start, k, plain);
    SealFrameLength(l, k, rest, true);
    FramesStand(file, l, start, blocks);
    TextsTogether(file, l, start, k, plain, data);
    LastPart(file, start, FrameOffset(l, start, k), l.header, SealAll(l, blocks), SealFrame(l, k, rest, true));
  }

  lemma LastPart(file: seq<byte>, start: nat, at: nat, header: seq<byte>, full: seq<byte>, final: seq<byte>)
    requires start <= at && at + |final| == |file|
    requires file[start..at] == full && Slice(file, at, |final|) == final
    ensures header + file[start..] == header + full + final
  {
    assert file[start..] == full + final;
  }

  lemma OpenIsReadable(file: seq<byte>, l: Layout, start: nat, k: nat, plain: nat)
    requires l.WellFormed() && Tiled(file, l, start, k, plain) && AllOpen(file, l, start, k)
    ensures Readable(file, l, start, 0, k * l.frameSize + plain)
  {
    hide FrameText, Tiled, Quot;
    forall i: nat | i < k * l.frameSize + plain
      ensures FrameText(file, l, start, Quot(i, l.frameSize)).Some?
    {
      PositionInStream(file, l, start, k, plain, i);
    }
  }

  lemma FinalEnds(file: seq<byte>, l: Layout, start: nat, k: nat, plain: nat)
    requires l.WellFormed() && Tiled(file, l, start, k, plain)
    ensures FrameOffset(l, start, k) + FRAME_HEADER_SIZE + plain + TAG_SIZE == |file|
  {
  }

  // No more bytes can be read than were sealed, and no fewer if the final frame
  // holds any.
  lemma TotalWithin(file: seq<byte>, l: Layout, start: nat, k: nat, plain: nat, data: seq<byte>)
    requires l.WellFormed() && l.cipher.Lawful()
    requires Tiled(file, l, start, k, plain) && Genuine(file, l, start, k, plain, l, data)
    requires FinalNumber(l, data) <= U64_MAX && Readable(file, l, start, 0, k * l.frameSize + plain)
    ensures k <= FinalNumber(l, data) && k * l.frameSize + plain <= |data|
    ensures plain > 0 ==> k * l.frameSize + plain == |data| && FrameText(file, l, start, k).Some?
  {
    hide FrameText, Genuine, Blocks, Remainder, Quot, Rem, FrameHeaderAt, FullFrameAt;
    BlocksOf(l.frameSize, data);
    if plain > 0 {
      DivMod(k, l.frameSize, plain - 1);
      assert FrameText(file, l, start, Quot(k * l.frameSize + (plain - 1), l.frameSize)).Some?;
      FrameStands(file, l, start, k, plain, data, k);
    } else if k > 0 {
      assert (k - 1) * l.frameSize + (l.frameSize - 1) == k * l.frameSize - 1;
      DivMod(k - 1, l.frameSize, l.frameSize - 1);
      assert FrameText(file, l, start, Quot(k * l.frameSize - 1, l.frameSize)).Some?;
      FrameStands(file, l, start, k, plain, data, k - 1);
      Monotone(k, FinalNumber(l, data), l.frameSize);
    }
  }

  // The plaintext of the bytes that can be read, when frames read as sealed.
  lemma TextsTogether(file: seq<byte>, l: Layout, start: nat, k: nat, plain: nat, data: seq<byte>)
    requires l.WellFormed() && l.cipher.Lawful()
    requires Tiled(file, l, start, k, plain) && Genuine(file, l, start, k, plain, l, data)
    requires FinalNumber(l, data) <= U64_MAX && Readable(file, l, start, 0, k * l.frameSize + plain)
    ensures k * l.frameSize + plain <= |data|
    ensures Plaintext(file, l, start, k * l.frameSize + plain) == data[..k * l.frameSize + plain]
  {
    hide FrameText, Genuine, Blocks, Remainder, Tiled, Quot, Rem;
    var size := k * l.frameSize + plain;
    TotalWithin(file, l, start, k, plain, data);
    forall i: nat | i < size
      ensures PlainByte(file, l, start, i) == data[i]
    {
      PositionInStream(file, l, start, k, plain, i);
      FrameStands(file, l, start, k, plain, data, Quot(i, l.frameSize));
      ByteInBlock(data, l.frameSize, i);
    }
  }

  // The supposition is met by what was written.
  lemma WrittenIsGenuine(before: seq<byte>, l: Layout, data: seq<byte>)
    requires l.WellFormed() && l.cipher.Lawful()
    ensures Genuine(before + StreamBytes(l, data), l, |before| + |l.header|, FinalNumber(l, data),
                    |Remainder(l.frameSize, data)|, l, data)
  {
    hide FrameText, StreamBytes, FoundHeader, FoundBody, SealedHeader, SealedBody, Remainder, FinalNumber, Declared, Nonce;
    var file, start := before + StreamBytes(l, data), |before| + |l.header|;
    var n, rest := FinalNumber(l, data), |Remainder(l.frameSize, data)|;
    forall i: nat | i <= n
      ensures GenuineFrame(file, l, start, n, rest, l, data, i)
    {
      WrittenFrame(before, l, data, i);
      assert Sealed(l, data, i, Nonce(l, i), l.header + FoundHeader(file, l, start, i),
                    FoundBody(file, l, start, i, Declared(l, n, rest, i)));
    }
  }

  lemma WrittenFrame(before: seq<byte>, l: Layout, data: seq<byte>, i: nat)
    requires l.WellFormed() && l.cipher.Lawful() && i <= FinalNumber(l, data)
    ensures var file, start, n := before + StreamBytes(l, data), |before| + |l.header|, FinalNumber(l, data);
      && FoundHeader(file, l, start, i) == SealedHeader(l, data, i)
      && FoundBody(file, l, start, i, Declared(l, n, |Remainder(l.frameSize, data)|, i)) == SealedBody(l, data, i)
  {
    hide SealAll, Blocks, Remainder, EncodeFrameHeader, FrameOffset, Slice;
    var blocks, rest := Blocks(l.frameSize, data), Remainder(l.frameSize, data);
    var file := before + (l.header + SealAll(l, blocks) + SealFrame(l, |blocks|, rest, true));
    var at := FrameOffset(l, |before| + |l.header|, i);
    BlocksOf(l.frameSize, data);
    StreamFrameAt(before, l, blocks, rest, i);
    SliceParts(file, at, SealedHeader(l, data, i), SealedBody(l, data, i));
  }

  lemma SliceParts(file: seq<byte>, at: nat, a: seq<byte>, b: seq<byte>)
    requires Slice(file, at, |a + b|) == a + b && a != []
    ensures Slice(file, at, |a|) == a && Slice(file, at + |a|, |b|) == b
  {
    assert file[at..at + |a|] == file[at..at + |a + b|][..|a|];
    assert file[at + |a|..at + |a + b|] == file[at..at + |a + b|][|a|..];
  }

  // ------------------------------------------------------- what is not read

  // Reading every byte opens every frame, unless the final frame holds none.
  lemma ReadingOpens(file: seq<byte>, l: Layout, start: nat, k: nat, plain: nat)
    requires l.WellFormed() && Tiled(file, l, start, k, plain)
    ensures AllOpen(file, l, start, k) <==>
      && Readable(file, l, start, 0, k * l.frameSize + plain)
      && (plain == 0 ==> FrameText(file, l, start, k).Some?)
  {
    hide FrameText, FullFrameAt, FrameHeaderAt, Quot, Rem;
    if AllOpen(file, l, start, k) {
      OpenIsReadable(file, l, start, k, plain);
    }
    if Readable(file, l, start, 0, k * l.frameSize + plain) && (plain == 0 ==> FrameText(file, l, start, k).Some?) {
      forall i: nat | i <= k && (i < k || plain > 0)
        ensures FrameText(file, l, start, i).Some?
      {
        DivMod(i, l.frameSize, 0);
        Monotone(i, k, l.frameSize);
        if i < k {
          Monotone(i + 1, k, l.frameSize);
        }
        assert FrameText(file, l, start, Quot(i * l.frameSize + 0, l.frameSize)).Some?;
      }
    }
  }

  // An empty final frame is never opened: whatever stands in its body, the
  // stream opens and reads the same.
  lemma FinalBodyUnread(file: seq<byte>, other: seq<byte>, l: Layout, start: nat, k: nat)
    requires l.WellFormed() && Tiled(file, l, start, k, 0)
    requires |other| == |file| && other[..|file| - TAG_SIZE] == file[..|file| - TAG_SIZE]
    ensures Tiled(other, l, start, k, 0)
    ensures Plaintext(other, l, start, k * l.frameSize) == Plaintext(file, l, start, k * l.frameSize)
    ensures Readable(other, l, start, 0, k * l.frameSize) <==> Readable(file, l, start, 0, k * l.frameSize)
  {
    hide FrameText, Quot, Rem, EncodeFrameHeader;
    forall i: nat | i < k
      ensures FullFrameAt(other, l, start, i) && FrameText(other, l, start, i) == FrameText(file, l, start, i)
    {
      SameFrame(file, other, l, start, k, i);
    }
    SameSlice(file, other, FrameOffset(l, start, k), FRAME_HEADER_SIZE);
    forall i: nat | i < k * l.frameSize
      ensures Quot(i, l.frameSize) < k
    {
      PositionInStream(file, l, start, k, 0, i);
      if Quot(i, l.frameSize) == k {
        assert false;
      }
    }
  }

  lemma SameSlice(file: seq<byte>, other: seq<byte>, at: nat, n: nat)
    requires |other| == |file| && at + n + TAG_SIZE <= |file|
    requires other[..|file| - TAG_SIZE] == file[..|file| - TAG_SIZE]
    ensures other[at..at + n] == file[at..at + n]
  {
    var m := |file| - TAG_SIZE;
    forall j | at <= j < at + n
      ensures other[j] == file[j]
    {
      assert other[..m][j] == file[..m][j];
    }
  }

  lemma SameFrame(file: seq<byte>, other: seq<byte>, l: Layout, start: nat, k: nat, i: nat)
    requires l.WellFormed() && Tiled(file, l, start, k, 0) && i < k
    requires |other| == |file| && other[..|file| - TAG_SIZE] == file[..|file| - TAG_SIZE]
    ensures FullFrameAt(other, l, start, i) && FrameText(other, l, start, i) == FrameText(file, l, start, i)
  {
    hide EncodeFrameHeader, DecodeFrameHeader, FrameOffset;
    TiledInside(file, l, start, k, 0, i);
    OffsetSteps(l, start, i, k);
    FinalEnds(file, l, start, k, 0);
    var at := FrameOffset(l, start, i);
    SameSlice(file, other, at, FRAME_HEADER_SIZE);
    SameSlice(file, other, at + FRAME_HEADER_SIZE, l.frameSize + TAG_SIZE);
    FrameHeaderCodec(l.frameMagic, l.frameSize, file[at..at + FRAME_HEADER_SIZE], InfoFor(i, l.frameSize, false));
  }

  // For instance the empty stream with any body that does not open.
  lemma UnopenedFinal(l: Layout, body: seq<byte>)
    requires l.WellFormed() && |body| == TAG_SIZE
    requires var h := EncodeFrameHeader(l.frameMagic, InfoFor(0, 0, true));
      l.cipher.unseal(Nonce(l, 0), l.header + h, body).None?
    ensures var file := l.header + EncodeFrameHeader(l.frameMagic, InfoFor(0, 0, true)) + body;
      Tiled(file, l, |l.header|, 0, 0) && Readable(file, l, |l.header|, 0, 0) && !AllOpen(file, l, |l.header|, 0)
  {
    hide EncodeFrameHeader, DecodeFrameHeader, FrameOffset, Nonce;
    var h := EncodeFrameHeader(l.frameMagic, InfoFor(0, 0, true));
    var file, at := l.header + h + body, |l.header|;
    OffsetZero(l, at);
    assert file[at..at + FRAME_HEADER_SIZE] == h && file[at + FRAME_HEADER_SIZE..at + FRAME_HEADER_SIZE + TAG_SIZE] == body;
    FrameHeaderCodec(l.frameMagic, l.frameSize, h, InfoFor(0, 0, true));
    assert FrameText(file, l, at, 0).None?;
  }

  // So a stream that can be read to its end may be short by whole frames; but
  // a complete archive inside cannot: if what was written scans and what is
  // read scans, they are the same.
  lemma ArchiveIsWhole(utf8: seq<byte> -> bool, file: seq<byte>, l: Layout, start: nat, k: nat, plain: nat, data: seq<byte>)
    requires l.WellFormed() && l.cipher.Lawful()
    requires Tiled(file, l, start, k, plain) && Genuine(file, l, start, k, plain, l, data)
    requires FinalNumber(l, data) <= U64_MAX && Readable(file, l, start, 0, k * l.frameSize + plain)
    requires Scanned(utf8, data).Some?
    requires Scanned(utf8, Plaintext(file, l, start, k * l.frameSize + plain)).Some?
    ensures Plaintext(file, l, start, k * l.frameSize + plain) == data
  {
    hide FrameText, Tiled, Genuine, Plaintext, ParseArchive, CheckArchive, Blocks;
    TotalWithin(file, l, start, k, plain, data);
    TextsTogether(file, l, start, k, plain, data);
    var read := Plaintext(file, l, start, k * l.frameSize + plain);
    if read != data {
      assert read < data;
      NoProperPrefix(read, data);
    }
  }
}
