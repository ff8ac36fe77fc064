// The RGXE stream: a framed stream under a key derived from a password with
// the parameters in its header.
module PrivateStream {
  import opened Bytes
  import opened Sequences
  import opened FramedStream
  import opened Tiling
  import FramedReader
  import FramedWriter

  const ENCRYPTED_MAGIC: seq<byte> := [0x52, 0x47, 0x58, 0x45] // "RGXE"
  const FRAME_MAGIC: seq<byte> := [0x46, 0x52, 0x41, 0x4D] // "FRAM"
  const VERSION_MAJOR: nat := 0
  const VERSION_MINOR: nat := 4
  const OLDER_MINOR: nat := 3
  const PROFILE: seq<byte> := [1, 1] // Argon2id, XChaCha20-Poly1305
  const HEADER_SIZE: nat := 60
  const SALT_SIZE: nat := 16
  const ARGON2_MEMORY_KIB: nat := 65536
  const ARGON2_ITERATIONS: nat := 3
  const ARGON2_LANES: nat := 1

  datatype PrivateHeader = PrivateHeader(
    minor: nat, memoryKib: nat, iterations: nat, lanes: nat, frameSize: nat,
    salt: seq<byte>, noncePrefix: seq<byte>)
  {
    predicate Acceptable() {
      && (minor == OLDER_MINOR || minor == VERSION_MINOR)
      && 8192 <= memoryKib <= 1048576 && 1 <= iterations <= 10 && 1 <= lanes <= 16
      && MIN_FRAME_SIZE <= frameSize <= MAX_FRAME_SIZE
      && |salt| == SALT_SIZE && |noncePrefix| == NONCE_PREFIX_SIZE
    }
  }

  predicate ParametersAllowed(memoryKib: nat, iterations: nat, lanes: nat, frameSize: nat) {
    && 8192 <= memoryKib <= 1048576
    && 1 <= iterations <= 10
    && 1 <= lanes <= 16
    && MIN_FRAME_SIZE <= frameSize <= MAX_FRAME_SIZE
  }

  // Key derivation, then keying of the cipher; may be refused by the library.
  type Derive = (string, PrivateHeader) -> Option<Cipher>

  function EncodeHeader(h: PrivateHeader): (b: seq<byte>)
    ensures h.Acceptable() ==> |b| == HEADER_SIZE
  {
    ENCRYPTED_MAGIC + ToLE(VERSION_MAJOR, 2) + ToLE(h.minor, 2) + PROFILE + [0, 0]
      + ToLE(h.memoryKib, 4) + ToLE(h.iterations, 4) + ToLE(h.lanes, 4) + ToLE(h.frameSize, 4)
      + h.salt + h.noncePrefix
  }

  function DecodeHeader(b: seq<byte>): Result<PrivateHeader>
    requires |b| == HEADER_SIZE
  {
    var minor := FromLE(b[6..8]);
    if b[0..4] != ENCRYPTED_MAGIC then Err(BadMagic)
    else if FromLE(b[4..6]) != VERSION_MAJOR || (minor != OLDER_MINOR && minor != VERSION_MINOR) then Err(BadVersion)
    else if b[8..10] != PROFILE then Err(Unsupported)
    else if b[10..12] != [0, 0] then Err(BadHeader)
    else
      var h := PrivateHeader(minor, FromLE(b[12..16]), FromLE(b[16..20]), FromLE(b[20..24]), FromLE(b[24..28]),
                             b[28..44], b[44..60]);
      if ParametersAllowed(h.memoryKib, h.iterations, h.lanes, h.frameSize) then Ok(h) else Err(BadHeader)
  }

  // Decoding accepts exactly the encodings of acceptable headers.
  lemma HeaderCodec(b: seq<byte>, h: PrivateHeader)
    requires |b| == HEADER_SIZE
    ensures DecodeHeader(b) == Ok(h) <==> h.Acceptable() && b == EncodeHeader(h)
  {
    if DecodeHeader(b) == Ok(h) {
      DecodedHeaderBytes(b, h);
    }
    if h.Acceptable() && b == EncodeHeader(h) {
      EncodedHeaderFields(h);
    }
  }

  lemma DecodedHeaderBytes(b: seq<byte>, h: PrivateHeader)
    requires |b| == HEADER_SIZE && DecodeHeader(b) == Ok(h)
    ensures h.Acceptable() && b == EncodeHeader(h)
  {
    hide FromLE, ToLE;
    ToFromLE(b[4..6]);
    ToFromLE(b[6..8]);
    ToFromLE(b[12..16]);
    ToFromLE(b[16..20]);
    ToFromLE(b[20..24]);
    ToFromLE(b[24..28]);
    Adjacent(b, 0, 4, 6);
    Adjacent(b, 0, 6, 8);
    Adjacent(b, 0, 8, 10);
    Adjacent(b, 0, 10, 12);
    Adjacent(b, 0, 12, 16);
    Adjacent(b, 0, 16, 20);
    Adjacent(b, 0, 20, 24);
    Adjacent(b, 0, 24, 28);
    Adjacent(b, 0, 28, 44);
    Adjacent(b, 0, 44, 60);
    assert b[0..60] == b;
  }

  lemma EncodedHeaderFields(h: PrivateHeader)
    requires h.Acceptable()
    ensures DecodeHeader(EncodeHeader(h)) == Ok(h)
  {
    hide FromLE, ToLE;
    var b := EncodeHeader(h);
    assert b[0..4] == ENCRYPTED_MAGIC;
    assert b[4..6] == ToLE(VERSION_MAJOR, 2);
    assert b[6..8] == ToLE(h.minor, 2);
    assert b[8..10] == PROFILE;
    assert b[10..12] == [0, 0];
    assert b[12..16] == ToLE(h.memoryKib, 4);
    assert b[16..20] == ToLE(h.iterations, 4);
    assert b[20..24] == ToLE(h.lanes, 4);
    assert b[24..28] == ToLE(h.frameSize, 4);
    assert b[28..44] == h.salt;
    assert b[44..60] == h.noncePrefix;
    Widths();
    FromToLE(VERSION_MAJOR, 2);
    FromToLE(h.minor, 2);
    LE32(h.memoryKib);
    LE32(h.iterations);
    LE32(h.lanes);
    LE32(h.frameSize);
  }

  function LayoutOf(h: PrivateHeader, cipher: Cipher): (l: Layout)
    ensures h.Acceptable() ==> l.WellFormed()
  {
    Layout(EncodeHeader(h), FRAME_MAGIC, h.frameSize, h.noncePrefix, cipher)
  }

  // A stream that is the whole file and whose key the password yields.
  ghost predicate StreamIn(file: seq<byte>, derive: Derive, password: string,
                           h: PrivateHeader, k: nat, plain: nat)
  {
    && h.Acceptable() && password != "" && derive(password, h).Some?
    && Slice(file, 0, HEADER_SIZE) == EncodeHeader(h)
    && Tiled(file, LayoutOf(h, derive(password, h).value), HEADER_SIZE, k, plain)
  }

  function WriterHeader(salt: seq<byte>, noncePrefix: seq<byte>): PrivateHeader {
    PrivateHeader(VERSION_MINOR, ARGON2_MEMORY_KIB, ARGON2_ITERATIONS, ARGON2_LANES, DEFAULT_FRAME_SIZE,
                  salt, noncePrefix)
  }

  method New(derive: Derive, password: string, salt: seq<byte>, noncePrefix: seq<byte>)
    returns (r: Result<FramedWriter.Writer>)
    requires |salt| == SALT_SIZE && |noncePrefix| == NONCE_PREFIX_SIZE
    ensures r.Ok? <==> derive(password, WriterHeader(salt, noncePrefix)).Some?
    ensures r.Ok? ==>
      && fresh(r.value) && r.value.Valid() && !r.value.finished && r.value.written == [] && r.value.prefix == []
      && r.value.layout == LayoutOf(WriterHeader(salt, noncePrefix),
                                    derive(password, WriterHeader(salt, noncePrefix)).value)
  {
    var header := WriterHeader(salt, noncePrefix);
    var cipher := derive(password, header);
    if cipher.None? {
      return Err(Authentication);
    }
    var w := new FramedWriter.Writer(LayoutOf(header, cipher.value), []);
    r := Ok(w);
  }

  // Opens exactly the files that hold such a stream.
  method Open(file: seq<byte>, derive: Derive, password: string) returns (r: Result<FramedReader.Reader>)
    requires |file| <= I64_MAX
    ensures r.Ok? <==> exists h: PrivateHeader, k: nat, plain: nat :: StreamIn(file, derive, password, h, k, plain)
    ensures r.Ok? ==>
      && fresh(r.value) && r.value.Valid() && r.value.position == 0 && !r.value.bounded
      && r.value.file == file && r.value.start == HEADER_SIZE
      && exists h: PrivateHeader ::
           && StreamIn(file, derive, password, h, r.value.finalSequence,
                       r.value.plaintextLen - r.value.finalSequence * r.value.layout.frameSize)
           && r.value.layout == LayoutOf(h, derive(password, h).value)
    ensures r.Err? ==> r.error != Overflow
  {
    hide DecodeHeader, EncodeHeader, Tiled;
    if password == "" {
      return Err(InvalidInput);
    }
    if HEADER_SIZE > |file| {
      return Err(Truncated);
    }
    var bytes := file[0..HEADER_SIZE];
    forall h: PrivateHeader
      ensures DecodeHeader(bytes) == Ok(h) <==> h.Acceptable() && bytes == EncodeHeader(h)
    {
      HeaderCodec(bytes, h);
    }
    var decoded := DecodeHeader(bytes);
    if decoded.Err? {
      return Err(BadHeader);
    }
    var header := decoded.value;
    var cipher := derive(password, header);
    if cipher.None? {
      return Err(Authentication);
    }
    var layout := LayoutOf(header, cipher.value);
    var scanned := FramedReader.ScanFrames(file, layout, HEADER_SIZE);
    if scanned.Err? {
      return Err(scanned.error);
    }
    var (plaintextLen, finalSequence) := scanned.value;
    var reader := new FramedReader.Reader(file, layout, HEADER_SIZE, plaintextLen, finalSequence, false);
    assert StreamIn(file, derive, password, header, finalSequence,
                    plaintextLen - finalSequence * layout.frameSize);
    r := Ok(reader);
  }
}
