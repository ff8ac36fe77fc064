// The framed, authenticated stream shared by RGXE and RGXK: what a writer must
// put in the file and what a file must look like to be opened.
module FramedStream {
  import opened Bytes
  import opened Sequences

  const FRAME_HEADER_SIZE: nat := 24
  const TAG_SIZE: nat := 16
  const NONCE_PREFIX_SIZE: nat := 16
  const MIN_FRAME_SIZE: nat := 65536
  const MAX_FRAME_SIZE: nat := 4194304
  const DEFAULT_FRAME_SIZE: nat := 1048576

  // An authenticated cipher under a fixed key; the arguments are the nonce,
  // the associated data and the text.
  datatype Cipher = Cipher(
    seal: (seq<byte>, seq<byte>, seq<byte>) -> seq<byte>,
    unseal: (seq<byte>, seq<byte>, seq<byte>) -> Option<seq<byte>>)
  {
    ghost predicate Lawful() {
      forall nonce, aad, text ::
        && |seal(nonce, aad, text)| == |text| + TAG_SIZE
        && unseal(nonce, aad, seal(nonce, aad, text)) == Some(text)
    }
  }

  // Everything fixed by a stream's header: its exact bytes, the marker of its
  // frames, the frame size, the nonce prefix and the keyed cipher.
  datatype Layout = Layout(
    header: seq<byte>, frameMagic: seq<byte>, frameSize: nat, noncePrefix: seq<byte>, cipher: Cipher)
  {
    predicate WellFormed() {
      && |frameMagic| == 4
      && MIN_FRAME_SIZE <= frameSize <= MAX_FRAME_SIZE
      && |noncePrefix| == NONCE_PREFIX_SIZE
    }

    function Stride(): (r: nat)
      ensures r > 0
    {
      FRAME_HEADER_SIZE + frameSize + TAG_SIZE
    }
  }

  // ---------------------------------------------------------- frame headers

  datatype FrameInfo = FrameInfo(sequence: nat, plainLen: nat, cipherLen: nat, last: bool)

  function EncodeFrameHeader(magic: seq<byte>, f: FrameInfo): (h: seq<byte>)
    requires |magic| == 4
    ensures |h| == FRAME_HEADER_SIZE
  {
    magic + [if f.last then 1 else 0] + [0, 0, 0]
      + ToLE(f.sequence, 8) + ToLE(f.plainLen, 4) + ToLE(f.cipherLen, 4)
  }

  function DecodeFrameHeader(magic: seq<byte>, frameSize: nat, h: seq<byte>): (r: Result<FrameInfo>)
    requires |h| == FRAME_HEADER_SIZE
    ensures r.Err? ==> r.error == BadMagic || r.error == BadFrame
  {
    if h[0..4] != magic then Err(BadMagic)
    else if h[4] > 1 || h[5..8] != [0, 0, 0] then Err(BadFrame)
    else
      var f := FrameInfo(FromLE(h[8..16]), FromLE(h[16..20]), FromLE(h[20..24]), h[4] == 1);
      if f.plainLen > frameSize then Err(BadFrame)
      else if !f.last && f.plainLen != frameSize then Err(BadFrame)
      else if f.cipherLen != f.plainLen + TAG_SIZE then Err(BadFrame)
      else Ok(f)
  }

  // The frame headers a reader lets through.
  predicate Acceptable(f: FrameInfo, frameSize: nat) {
    && f.sequence <= U64_MAX
    && f.plainLen <= frameSize
    && (f.last || f.plainLen == frameSize)
    && f.cipherLen == f.plainLen + TAG_SIZE
  }

  // Decoding accepts exactly the encodings of acceptable frames.
  lemma FrameHeaderCodec(magic: seq<byte>, frameSize: nat, h: seq<byte>, f: FrameInfo)
    requires |magic| == 4 && |h| == FRAME_HEADER_SIZE && frameSize <= MAX_FRAME_SIZE
    ensures DecodeFrameHeader(magic, frameSize, h) == Ok(f)
      <==> Acceptable(f, frameSize) && h == EncodeFrameHeader(magic, f)
  {
    if DecodeFrameHeader(magic, frameSize, h) == Ok(f) {
      DecodedHeader(magic, frameSize, h, f);
    }
    if Acceptable(f, frameSize) && h == EncodeFrameHeader(magic, f) {
      EncodedHeader(magic, frameSize, f);
    }
  }

  lemma DecodedHeader(magic: seq<byte>, frameSize: nat, h: seq<byte>, f: FrameInfo)
    requires |magic| == 4 && |h| == FRAME_HEADER_SIZE
    requires DecodeFrameHeader(magic, frameSize, h) == Ok(f)
    ensures Acceptable(f, frameSize) && h == EncodeFrameHeader(magic, f)
  {
    hide FromLE, ToLE;
    Widths();
    ToFromLE(h[8..16]);
    ToFromLE(h[16..20]);
    ToFromLE(h[20..24]);
    assert h[4..5] == [h[4]] == [if f.last then 1 else 0];
    Adjacent(h, 0, 4, 5);
    Adjacent(h, 0, 5, 8);
    Adjacent(h, 0, 8, 16);
    Adjacent(h, 0, 16, 20);
    Adjacent(h, 0, 20, 24);
    assert h[0..24] == h;
  }

  lemma EncodedHeader(magic: seq<byte>, frameSize: nat, f: FrameInfo)
    requires |magic| == 4 && frameSize <= MAX_FRAME_SIZE
    requires Acceptable(f, frameSize)
    ensures DecodeFrameHeader(magic, frameSize, EncodeFrameHeader(magic, f)) == Ok(f)
  {
    hide FromLE, ToLE;
    var h, lead := EncodeFrameHeader(magic, f), magic + [if f.last then 1 else 0] + [0, 0, 0];
    PartsOfFour(lead, ToLE(f.sequence, 8), ToLE(f.plainLen, 4), ToLE(f.cipherLen, 4));
    assert h[0..4] == lead[..4] == magic;
    assert h[4] == lead[4];
    assert h[5..8] == lead[5..8] == [0, 0, 0];
    assert h[20..24] == h[20..];
    LE64(f.sequence);
    LE32(f.plainLen);
    LE32(f.cipherLen);
  }

  // ----------------------------------------------------------------- frames

  function Nonce(l: Layout, sequence: nat): seq<byte> {
    l.noncePrefix + ToLE(sequence, 8)
  }

  lemma NoncesDistinct(l: Layout, i: nat, j: nat)
    requires i <= U64_MAX && j <= U64_MAX && i != j
    ensures Nonce(l, i) != Nonce(l, j)
  {
    LE64(i);
    LE64(j);
    var n := |l.noncePrefix|;
    assert Nonce(l, i)[n..] == ToLE(i, 8);
    assert Nonce(l, j)[n..] == ToLE(j, 8);
  }

  function InfoFor(sequence: nat, plainLen: nat, last: bool): FrameInfo {
    FrameInfo(sequence, plainLen, plainLen + TAG_SIZE, last)
  }

  function SealFrame(l: Layout, sequence: nat, text: seq<byte>, last: bool): seq<byte>
    requires l.WellFormed()
  {
    var h := EncodeFrameHeader(l.frameMagic, InfoFor(sequence, |text|, last));
    h + l.cipher.seal(Nonce(l, sequence), l.header + h, text)
  }

  // Full frames, numbered from zero.
  function SealAll(l: Layout, blocks: seq<seq<byte>>): seq<byte>
    requires l.WellFormed()
  {
    if blocks == [] then []
    else
      var n := |blocks| - 1;
      SealAll(l, blocks[..n]) + SealFrame(l, n, blocks[n], false)
  }

  // The full frame-sized blocks at the front of the data.
  function Blocks(size: nat, data: seq<byte>): seq<seq<byte>>
    requires size > 0
  {
    if |data| < size then [] else [data[..size]] + Blocks(size, data[size..])
  }

  function Remainder(size: nat, data: seq<byte>): seq<byte>
    requires size > 0
  {
    if |data| < size then data else Remainder(size, data[size..])
  }

  // The whole stream that carries `data`.
  function StreamBytes(l: Layout, data: seq<byte>): seq<byte>
    requires l.WellFormed()
  {
    var blocks := Blocks(l.frameSize, data);
    l.header + SealAll(l, blocks) + SealFrame(l, |blocks|, Remainder(l.frameSize, data), true)
  }

  predicate AllSized(blocks: seq<seq<byte>>, size: nat) {
    forall i :: 0 <= i < |blocks| ==> |blocks[i]| == size
  }

  lemma {:induction false} SizedTotal(blocks: seq<seq<byte>>, size: nat)
    requires AllSized(blocks, size)
    ensures |Flatten(blocks)| == |blocks| * size
  {
    if blocks != [] {
      var n := |blocks| - 1;
      SizedTotal(blocks[..n], size);
      assert (n + 1) * size == n * size + size;
    }
  }

  lemma {:induction false} BlocksSized(size: nat, data: seq<byte>)
    requires size > 0
    ensures AllSized(Blocks(size, data), size)
    ensures |Remainder(size, data)| < size
  {
    if |data| >= size {
      BlocksSized(size, data[size..]);
    }
  }

  lemma {:induction false} BlocksJoin(size: nat, data: seq<byte>)
    requires size > 0
    ensures Flatten(Blocks(size, data)) + Remainder(size, data) == data
  {
    if |data| >= size {
      var head, rest := data[..size], data[size..];
      BlocksJoin(size, rest);
      FlattenCons(head, Blocks(size, rest));
      assert data == head + (Flatten(Blocks(size, rest)) + Remainder(size, rest));
    }
  }

  lemma BlocksOf(size: nat, data: seq<byte>)
    requires size > 0
    ensures AllSized(Blocks(size, data), size)
    ensures |Remainder(size, data)| < size
    ensures Flatten(Blocks(size, data)) + Remainder(size, data) == data
    ensures |data| == |Blocks(size, data)| * size + |Remainder(size, data)|
  {
    BlocksSized(size, data);
    BlocksJoin(size, data);
    SizedTotal(Blocks(size, data), size);
  }

  // A stream of n bytes has n / frameSize full frames and one final frame of
  // n % frameSize bytes.
  lemma FrameCounts(l: Layout, data: seq<byte>)
    requires l.WellFormed()
    ensures |Blocks(l.frameSize, data)| == Quot(|data|, l.frameSize)
    ensures |Remainder(l.frameSize, data)| == Rem(|data|, l.frameSize)
  {
    BlocksOf(l.frameSize, data);
    DivMod(|Blocks(l.frameSize, data)|, l.frameSize, |Remainder(l.frameSize, data)|);
  }

  // Quotient and remainder by a positive divisor.
  function Quot(n: nat, d: nat): (q: nat)
    requires d > 0
  {
    n / d
  }

  function Rem(n: nat, d: nat): (r: nat)
    requires d > 0
    ensures r < d && n == Quot(n, d) * d + r
  {
    n % d
  }

  lemma DivMod(q: nat, d: nat, r: nat)
    requires r < d
    ensures Quot(q * d + r, d) == q && Rem(q * d + r, d) == r
  {
    hide Quot, Rem;
    var n := q * d + r;
    var k := Quot(n, d);
    assert n == k * d + Rem(n, d);
    if k < q {
      Monotone(k + 1, q, d);
    }
    if q < k {
      Monotone(q + 1, k, d);
    }
  }

  lemma Monotone(a: nat, b: nat, d: nat)
    requires a <= b
    ensures a * d <= b * d
  {
  }

  // The decomposition into blocks is the only one.
  lemma {:induction false} BlocksUnique(size: nat, blocks: seq<seq<byte>>, rest: seq<byte>)
    requires size > 0 && AllSized(blocks, size) && |rest| < size
    ensures Blocks(size, Flatten(blocks) + rest) == blocks
    ensures Remainder(size, Flatten(blocks) + rest) == rest
  {
    var data := Flatten(blocks) + rest;
    if blocks == [] {
      assert data == rest;
    } else {
      var tail := blocks[1..];
      BlocksUnique(size, tail, rest);
      assert blocks == [blocks[0]] + tail;
      FlattenCons(blocks[0], tail);
      assert data == blocks[0] + (Flatten(tail) + rest);
      assert data[..size] == blocks[0];
      assert data[size..] == Flatten(tail) + rest;
    }
  }
}
