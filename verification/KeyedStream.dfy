// The RGXK stream: a framed stream under a random archive key whose header
// names the envelope in front of it.
module KeyedStream {
  import opened Bytes
  import opened FramedStream
  import opened Tiling
  import FramedReader
  import FramedWriter

  const KEYED_MAGIC: seq<byte> := [0x52, 0x47, 0x58, 0x4B] // "RGXK"
  const FRAME_MAGIC: seq<byte> := [0x4B, 0x46, 0x52, 0x4D] // "KFRM"
  const VERSION: nat := 1
  const HEADER_SIZE: nat := 64
  const HASH_SIZE: nat := 32

  datatype StreamHeader = StreamHeader(frameSize: nat, noncePrefix: seq<byte>, envelopeHash: seq<byte>) {
    predicate Acceptable() {
      && MIN_FRAME_SIZE <= frameSize <= MAX_FRAME_SIZE
      && |noncePrefix| == NONCE_PREFIX_SIZE
      && |envelopeHash| == HASH_SIZE
    }
  }

  function EncodeHeader(h: StreamHeader): (b: seq<byte>)
    ensures h.Acceptable() ==> |b| == HEADER_SIZE
  {
    KEYED_MAGIC + ToLE(VERSION, 2) + [0, 0] + ToLE(h.frameSize, 4) + h.noncePrefix + h.envelopeHash + [0, 0, 0, 0]
  }

  function DecodeHeader(b: seq<byte>): Result<StreamHeader>
    requires |b| == HEADER_SIZE
  {
    if b[0..4] != KEYED_MAGIC then Err(BadMagic)
    else if FromLE(b[4..6]) != VERSION then Err(BadVersion)
    else if b[6..8] != [0, 0] || b[60..64] != [0, 0, 0, 0] then Err(BadHeader)
    else
      var frameSize := FromLE(b[8..12]);
      if frameSize < MIN_FRAME_SIZE || frameSize > MAX_FRAME_SIZE then Err(BadHeader)
      else Ok(StreamHeader(frameSize, b[12..28], b[28..60]))
  }

  // Decoding accepts exactly the encodings of acceptable headers.
  lemma HeaderCodec(b: seq<byte>, h: StreamHeader)
    requires |b| == HEADER_SIZE
    ensures DecodeHeader(b) == Ok(h) <==> h.Acceptable() && b == EncodeHeader(h)
  {
    hide FromLE, ToLE;
    if DecodeHeader(b) == Ok(h) {
      ToFromLE(b[4..6]);
      ToFromLE(b[8..12]);
      assert b == b[0..4] + b[4..6] + b[6..8] + b[8..12] + b[12..28] + b[28..60] + b[60..64];
    }
    if h.Acceptable() && b == EncodeHeader(h) {
      EncodedHeaderFields(h);
    }
  }

  lemma EncodedHeaderFields(h: StreamHeader)
    requires h.Acceptable()
    ensures |EncodeHeader(h)| == HEADER_SIZE && DecodeHeader(EncodeHeader(h)) == Ok(h)
  {
    hide FromLE, ToLE;
    var b := EncodeHeader(h);
    assert b[0..4] == KEYED_MAGIC;
    assert b[4..6] == ToLE(VERSION, 2);
    assert b[6..8] == [0, 0];
    assert b[8..12] == ToLE(h.frameSize, 4);
    assert b[12..28] == h.noncePrefix;
    assert b[28..60] == h.envelopeHash;
    assert b[60..64] == [0, 0, 0, 0];
    Widths();
    FromToLE(VERSION, 2);
    LE32(h.frameSize);
  }

  function LayoutOf(h: StreamHeader, cipher: Cipher): (l: Layout)
    ensures h.Acceptable() ==> l.WellFormed()
  {
    Layout(EncodeHeader(h), FRAME_MAGIC, h.frameSize, h.noncePrefix, cipher)
  }

  // A stream bound to `envelopeHash` that fills the file from `offset` on.
  ghost predicate StreamAt(file: seq<byte>, offset: nat, cipher: Cipher, envelopeHash: seq<byte>,
                           h: StreamHeader, k: nat, plain: nat)
  {
    && h.Acceptable() && h.envelopeHash == envelopeHash
    && Slice(file, offset, HEADER_SIZE) == EncodeHeader(h)
    && Tiled(file, LayoutOf(h, cipher), offset + HEADER_SIZE, k, plain)
  }

  method New(before: seq<byte>, cipher: Cipher, envelopeHash: seq<byte>, noncePrefix: seq<byte>)
    returns (w: FramedWriter.Writer)
    requires |noncePrefix| == NONCE_PREFIX_SIZE && |envelopeHash| == HASH_SIZE
    ensures fresh(w) && w.Valid() && !w.finished && w.written == [] && w.prefix == before
    ensures w.layout == LayoutOf(StreamHeader(DEFAULT_FRAME_SIZE, noncePrefix, envelopeHash), cipher)
  {
    var header := StreamHeader(DEFAULT_FRAME_SIZE, noncePrefix, envelopeHash);
    w := new FramedWriter.Writer(LayoutOf(header, cipher), before);
  }

  // Opens exactly the files that hold such a stream.
  method Open(file: seq<byte>, offset: nat, cipher: Cipher, envelopeHash: seq<byte>)
    returns (r: Result<FramedReader.Reader>)
    requires |file| <= I64_MAX
    ensures r.Ok? <==> exists h: StreamHeader, k: nat, plain: nat ::
      StreamAt(file, offset, cipher, envelopeHash, h, k, plain)
    ensures r.Ok? ==>
      && fresh(r.value) && r.value.Valid() && r.value.position == 0 && r.value.bounded
      && r.value.file == file && r.value.start == offset + HEADER_SIZE
      && exists h: StreamHeader :: r.value.layout == LayoutOf(h, cipher)
           && StreamAt(file, offset, cipher, envelopeHash, h, r.value.finalSequence,
                       r.value.plaintextLen - r.value.finalSequence * r.value.layout.frameSize)
    ensures r.Err? ==> r.error != Overflow
  {
    hide DecodeHeader, EncodeHeader, Tiled;
    if offset + HEADER_SIZE > |file| {
      return Err(Truncated);
    }
    var bytes := file[offset..offset + HEADER_SIZE];
    forall h: StreamHeader
      ensures DecodeHeader(bytes) == Ok(h) <==> h.Acceptable() && bytes == EncodeHeader(h)
    {
      HeaderCodec(bytes, h);
    }
    var decoded := DecodeHeader(bytes);
    if decoded.Err? {
      return Err(BadHeader);
    }
    var header := decoded.value;
    if header.envelopeHash != envelopeHash {
      return Err(Authentication);
    }
    if offset + HEADER_SIZE > U64_MAX {
      return Err(Overflow);
    }
    var layout := LayoutOf(header, cipher);
    var scanned := FramedReader.ScanFrames(file, layout, offset + HEADER_SIZE);
    if scanned.Err? {
      return Err(scanned.error);
    }
    var (plaintextLen, finalSequence) := scanned.value;
    var reader := new FramedReader.Reader(file, layout, offset + HEADER_SIZE, plaintextLen, finalSequence, true);
    assert StreamAt(file, offset, cipher, envelopeHash, header, finalSequence,
                    plaintextLen - finalSequence * layout.frameSize);
    r := Ok(reader);
  }
}
