// Step-by-step writing and reading of the format's headers, proved against
// the printed form.
module FormatIO {
  import opened Bytes
  import opened Format
  import opened Sources
  import opened FramedReader

  // ---------------------------------------------------------------- writing

  class Sink {
    var out: seq<byte>

    constructor ()
      ensures out == []
    {
      out := [];
    }

    method WriteAll(b: seq<byte>)
      modifies this
      ensures out == old(out) + b
    {
      out := out + b;
    }
  }

  method WriteHeader(w: Sink, flags: nat)
    modifies w
    ensures w.out == old(w.out) + PrintHeader(flags, 0)
  {
    hide ToLE;
    w.WriteAll(MAGIC);
    w.WriteAll(ToLE(VERSION_MAJOR, 2));
    w.WriteAll(ToLE(VERSION_MINOR, 2));
    w.WriteAll(ToLE(flags, 4));
    w.WriteAll(ToLE(0, 4));
  }

  method WriteChunkHeader(w: Sink, compression: byte, originalSize: nat, payloadSize: nat, hash: Digest)
    modifies w
    ensures w.out == old(w.out) + ChunkHeaderBytes(compression, [0, 0, 0], originalSize, payloadSize, hash)
  {
    hide ToLE;
    w.WriteAll(CHUNK_MAGIC);
    w.WriteAll([compression]);
    w.WriteAll([0, 0, 0]);
    w.WriteAll(ToLE(originalSize, 8));
    w.WriteAll(ToLE(payloadSize, 8));
    w.WriteAll(hash);
  }

  method WriteFileHeader(w: Sink, pathLen: nat, chunkCount: nat, originalSize: nat, hash: Digest)
    modifies w
    ensures w.out == old(w.out) + FileHeaderBytes(pathLen, chunkCount, originalSize, hash)
  {
    hide ToLE;
    w.WriteAll(FILE_MAGIC);
    w.WriteAll(ToLE(pathLen, 4));
    w.WriteAll(ToLE(chunkCount, 4));
    w.WriteAll(ToLE(originalSize, 8));
    w.WriteAll(hash);
  }

  method WriteDirectoryHeader(w: Sink, pathLen: nat)
    modifies w
    ensures w.out == old(w.out) + DirectoryHeaderBytes(pathLen, 0)
  {
    hide ToLE;
    w.WriteAll(DIRECTORY_MAGIC);
    w.WriteAll(ToLE(pathLen, 4));
    w.WriteAll(ToLE(0, 4));
  }

  method WriteFooter(w: Sink, f: Footer)
    modifies w
    ensures w.out == old(w.out) + PrintFooter(f)
  {
    hide ToLE;
    w.WriteAll(FOOTER_MAGIC);
    w.WriteAll(ToLE(f.entries, 8));
    w.WriteAll(ToLE(f.files, 8));
    w.WriteAll(ToLE(f.directories, 8));
    w.WriteAll(ToLE(f.uniqueChunks, 8));
    w.WriteAll(ToLE(f.chunkReferences, 8));
    w.WriteAll(ToLE(f.originalBytes, 8));
    w.WriteAll(ToLE(f.storedPayloadBytes, 8));
    w.WriteAll(ToLE(f.deduplicatedBytes, 8));
  }

  // ---------------------------------------------------------------- reading

  datatype ChunkHeader = ChunkHeader(compression: byte, originalSize: nat, payloadSize: nat, hash: Digest)
  datatype FileHeader = FileHeader(pathLen: nat, chunkCount: nat, originalSize: nat, hash: Digest)

  method ReadInteger(src: Source, width: nat) returns (r: Result<nat>)
    requires src.Valid() && width > 0
    modifies src.Repr()
    ensures src.Valid()
    ensures r.Ok? ==>
      && old(src.position) + width <= |src.data|
      && r.value == FromLE(src.data[old(src.position)..old(src.position) + width])
      && src.position == old(src.position) + width
    ensures src.authentic && old(src.position) + width <= |src.data| ==> r.Ok?
  {
    hide Reader.Valid, Reader.Contents, Reader.CanRead;
    hide FromLE;
    var b := src.ReadExact(width);
    if b.Err? {
      return Err(b.error);
    }
    r := Ok(FromLE(b.value));
  }

  // The next four bytes; nothing when the archive ends before them.
  method ReadTag(src: Source) returns (r: Result<Option<seq<byte>>>)
    requires src.Valid()
    modifies src.Repr()
    ensures src.Valid()
    ensures r.Ok? ==> (r.value.Some? <==> old(src.position) + 4 <= |src.data|)
    ensures r.Ok? && r.value.Some? ==>
      && r.value.value == src.data[old(src.position)..old(src.position) + 4]
      && src.position == old(src.position) + 4
    ensures src.authentic ==> r.Ok?
  {
    hide Reader.Valid, Reader.Contents, Reader.CanRead;
    var got := src.Read(4);
    if got.Err? {
      return Err(got.error);
    }
    if |got.value| < 4 {
      return Ok(None);
    }
    r := Ok(Some(got.value));
  }

  method ReadHeader(src: Source) returns (r: Result<nat>)
    requires src.Valid() && src.position == 0
    modifies src.Repr()
    ensures src.Valid()
    ensures r.Ok? ==> HeaderAccepted(src.data) && r.value == U32At(src.data, 8) && src.position == HEADER_SIZE
    ensures src.authentic ==> (r.Ok? <==> HeaderAccepted(src.data))
  {
    hide Reader.Valid, Reader.Contents, Reader.CanRead;
    hide FromLE;
    var magic := src.ReadExact(4);
    if magic.Err? {
      return Err(magic.error);
    }
    if magic.value != MAGIC {
      return Err(BadMagic);
    }
    var major := ReadInteger(src, 2);
    if major.Err? {
      return major;
    }
    var minor := ReadInteger(src, 2);
    if minor.Err? {
      return minor;
    }
    if major.value != VERSION_MAJOR || minor.value != VERSION_MINOR {
      return Err(BadVersion);
    }
    var flags := ReadInteger(src, 4);
    if flags.Err? {
      return flags;
    }
    var reserved := ReadInteger(src, 4);
    if reserved.Err? {
      return reserved;
    }
    r := flags;
  }

  // The header of the chunk record whose marker was at p.
  function ChunkHeaderAt(data: seq<byte>, p: nat): ChunkHeader
    requires p + CHUNK_HEADER_SIZE <= |data|
  {
    ChunkHeader(data[p + 4], U64At(data, p + 8), U64At(data, p + 16), data[p + 24..p + 56])
  }

  method ReadChunkHeaderAfterMagic(src: Source, ghost p: nat) returns (r: Result<ChunkHeader>)
    requires src.Valid() && src.position == p + 4
    modifies src.Repr()
    ensures src.Valid()
    ensures r.Ok? ==>
      && p + CHUNK_HEADER_SIZE <= |src.data| && src.position == p + CHUNK_HEADER_SIZE
      && r.value == ChunkHeaderAt(src.data, p)
    ensures src.authentic && p + CHUNK_HEADER_SIZE <= |src.data| ==> r.Ok?
  {
    hide Reader.Valid, Reader.Contents, Reader.CanRead;
    hide FromLE;
    var compression := src.ReadExact(1);
    if compression.Err? {
      return Err(compression.error);
    }
    var padding := src.ReadExact(3);
    if padding.Err? {
      return Err(padding.error);
    }
    var originalSize := ReadInteger(src, 8);
    if originalSize.Err? {
      return Err(originalSize.error);
    }
    var payloadSize := ReadInteger(src, 8);
    if payloadSize.Err? {
      return Err(payloadSize.error);
    }
    var hash := src.ReadExact(32);
    if hash.Err? {
      return Err(hash.error);
    }
    r := Ok(ChunkHeader(compression.value[0], originalSize.value, payloadSize.value, hash.value));
  }

  method ReadDirectoryHeaderAfterMagic(src: Source, ghost p: nat) returns (r: Result<nat>)
    requires src.Valid() && src.position == p + 4
    modifies src.Repr()
    ensures src.Valid()
    ensures r.Ok? ==>
      && p + DIRECTORY_HEADER_SIZE <= |src.data| && src.position == p + DIRECTORY_HEADER_SIZE
      && r.value == U32At(src.data, p + 4)
    ensures src.authentic && p + DIRECTORY_HEADER_SIZE <= |src.data| ==> r.Ok?
  {
    hide Reader.Valid, Reader.Contents, Reader.CanRead;
    hide FromLE;
    var pathLen := ReadInteger(src, 4);
    if pathLen.Err? {
      return pathLen;
    }
    var reserved := ReadInteger(src, 4);
    if reserved.Err? {
      return reserved;
    }
    r := pathLen;
  }

  function FileHeaderAt(data: seq<byte>, p: nat): FileHeader
    requires p + FILE_HEADER_SIZE <= |data|
  {
    FileHeader(U32At(data, p + 4), U32At(data, p + 8), U64At(data, p + 12), data[p + 20..p + 52])
  }

  method ReadFileHeaderAfterMagic(src: Source, ghost p: nat) returns (r: Result<FileHeader>)
    requires src.Valid() && src.position == p + 4
    modifies src.Repr()
    ensures src.Valid()
    ensures r.Ok? ==>
      && p + FILE_HEADER_SIZE <= |src.data| && src.position == p + FILE_HEADER_SIZE
      && r.value == FileHeaderAt(src.data, p)
    ensures src.authentic && p + FILE_HEADER_SIZE <= |src.data| ==> r.Ok?
  {
    hide Reader.Valid, Reader.Contents, Reader.CanRead;
    hide FromLE;
    var pathLen := ReadInteger(src, 4);
    if pathLen.Err? {
      return Err(pathLen.error);
    }
    var chunkCount := ReadInteger(src, 4);
    if chunkCount.Err? {
      return Err(chunkCount.error);
    }
    var originalSize := ReadInteger(src, 8);
    if originalSize.Err? {
      return Err(originalSize.error);
    }
    var hash := src.ReadExact(32);
    if hash.Err? {
      return Err(hash.error);
    }
    r := Ok(FileHeader(pathLen.value, chunkCount.value, originalSize.value, hash.value));
  }

  // Four consecutive 64-bit fields of the footer.
  method ReadFour(src: Source, ghost p: nat) returns (r: Result<(nat, nat, nat, nat)>)
    requires src.Valid() && src.position == p
    modifies src.Repr()
    ensures src.Valid()
    ensures r.Ok? ==>
      && p + 32 <= |src.data| && src.position == p + 32
      && r.value == (U64At(src.data, p), U64At(src.data, p + 8), U64At(src.data, p + 16), U64At(src.data, p + 24))
    ensures src.authentic && p + 32 <= |src.data| ==> r.Ok?
  {
    hide Reader.Valid, Reader.Contents, Reader.CanRead;
    hide FromLE;
    var a := ReadInteger(src, 8);
    if a.Err? {
      return Err(a.error);
    }
    var b := ReadInteger(src, 8);
    if b.Err? {
      return Err(b.error);
    }
    var c := ReadInteger(src, 8);
    if c.Err? {
      return Err(c.error);
    }
    var d := ReadInteger(src, 8);
    if d.Err? {
      return Err(d.error);
    }
    r := Ok((a.value, b.value, c.value, d.value));
  }

  method ReadFooterAfterMagic(src: Source, ghost p: nat) returns (r: Result<Footer>)
    requires src.Valid() && src.position == p + 4
    modifies src.Repr()
    ensures src.Valid()
    ensures r.Ok? ==>
      && p + FOOTER_SIZE <= |src.data| && src.position == p + FOOTER_SIZE
      && r.value == FooterAt(src.data, p)
    ensures src.authentic && p + FOOTER_SIZE <= |src.data| ==> r.Ok?
  {
    hide Reader.Valid, Reader.Contents, Reader.CanRead;
    hide U64At;
    var counts := ReadFour(src, p + 4);
    if counts.Err? {
      return Err(counts.error);
    }
    var sums := ReadFour(src, p + 36);
    if sums.Err? {
      return Err(sums.error);
    }
    var (entries, files, directories, uniqueChunks) := counts.value;
    var (chunkReferences, originalBytes, storedPayloadBytes, deduplicatedBytes) := sums.value;
    r := Ok(Footer(entries, files, directories, uniqueChunks,
                   chunkReferences, originalBytes, storedPayloadBytes, deduplicatedBytes));
  }
}
