// The RGX v0.2 inner format: headers, records and footer as bytes, and the
// parser that inverts the printer.
module Format {
  import opened Bytes
  import opened Sequences

  type Digest = s: seq<byte> | |s| == 32 witness seq(32, _ => 0)
  type Path = seq<byte>

  const MAGIC: seq<byte> := [0x52, 0x47, 0x58, 0x00] // "RGX\0"
  const CHUNK_MAGIC: seq<byte> := [0x43, 0x48, 0x4E, 0x4B] // "CHNK"
  const FILE_MAGIC: seq<byte> := [0x46, 0x49, 0x4C, 0x45] // "FILE"
  const DIRECTORY_MAGIC: seq<byte> := [0x44, 0x49, 0x52, 0x45] // "DIRE"
  const FOOTER_MAGIC: seq<byte> := [0x52, 0x47, 0x58, 0x46] // "RGXF"
  const VERSION_MAJOR: nat := 0
  const VERSION_MINOR: nat := 2
  const COMPRESSION_STORE: byte := 0
  const COMPRESSION_ZSTD: byte := 1
  const MAX_PATH_BYTES: nat := 1048576

  const HEADER_SIZE: nat := 16
  const CHUNK_HEADER_SIZE: nat := 56
  const DIRECTORY_HEADER_SIZE: nat := 12
  const FILE_HEADER_SIZE: nat := 52
  const FOOTER_SIZE: nat := 68

  // Readers ignore the reserved bytes, so a record keeps what they were; the
  // writer makes them zero.
  datatype Record =
    | Chunk(compression: byte, padding: seq<byte>, originalSize: nat, payload: seq<byte>, hash: Digest)
    | Directory(reserved: nat, path: Path)
    | File(path: Path, originalSize: nat, hash: Digest, chunkHashes: seq<Digest>)

  datatype Footer = Footer(
    entries: nat, files: nat, directories: nat, uniqueChunks: nat, chunkReferences: nat,
    originalBytes: nat, storedPayloadBytes: nat, deduplicatedBytes: nat)

  datatype Archive = Archive(flags: nat, reserved: nat, records: seq<Record>, footer: Footer)

  // --------------------------------------------------------------- printing

  function ChunkHeaderBytes(compression: byte, padding: seq<byte>, originalSize: nat, payloadSize: nat, hash: Digest): seq<byte> {
    CHUNK_MAGIC + [compression] + padding + ToLE(originalSize, 8) + ToLE(payloadSize, 8) + hash
  }

  function DirectoryHeaderBytes(pathLen: nat, reserved: nat): (b: seq<byte>)
    ensures |b| == DIRECTORY_HEADER_SIZE
  {
    DIRECTORY_MAGIC + ToLE(pathLen, 4) + ToLE(reserved, 4)
  }

  function FileHeaderBytes(pathLen: nat, chunkCount: nat, originalSize: nat, hash: Digest): (b: seq<byte>)
    ensures |b| == FILE_HEADER_SIZE
  {
    FILE_MAGIC + ToLE(pathLen, 4) + ToLE(chunkCount, 4) + ToLE(originalSize, 8) + hash
  }

  function PrintRecord(r: Record): seq<byte> {
    match r
    case Chunk(compression, padding, originalSize, payload, hash) =>
      ChunkHeaderBytes(compression, padding, originalSize, |payload|, hash) + payload
    case Directory(reserved, path) =>
      DirectoryHeaderBytes(|path|, reserved) + path
    case File(path, originalSize, hash, chunkHashes) =>
      FileHeaderBytes(|path|, |chunkHashes|, originalSize, hash) + path + Flatten(chunkHashes)
  }

  function PrintRecords(rs: seq<Record>): seq<byte> {
    if rs == [] then [] else PrintRecords(rs[..|rs| - 1]) + PrintRecord(rs[|rs| - 1])
  }

  function PrintFooter(f: Footer): (b: seq<byte>)
    ensures |b| == FOOTER_SIZE
  {
    FOOTER_MAGIC + ToLE(f.entries, 8) + ToLE(f.files, 8) + ToLE(f.directories, 8) + ToLE(f.uniqueChunks, 8)
      + ToLE(f.chunkReferences, 8) + ToLE(f.originalBytes, 8) + ToLE(f.storedPayloadBytes, 8)
      + ToLE(f.deduplicatedBytes, 8)
  }

  function PrintHeader(flags: nat, reserved: nat): (b: seq<byte>)
    ensures |b| == HEADER_SIZE
  {
    MAGIC + ToLE(VERSION_MAJOR, 2) + ToLE(VERSION_MINOR, 2) + ToLE(flags, 4) + ToLE(reserved, 4)
  }

  function PrintArchive(a: Archive): seq<byte> {
    PrintHeader(a.flags, a.reserved) + PrintRecords(a.records) + PrintFooter(a.footer)
  }

  // ------------------------------------------------- what fits the fields

  predicate PathFits(path: Path) {
    1 <= |path| <= MAX_PATH_BYTES
  }

  predicate RecordFits(r: Record) {
    match r
    case Chunk(_, padding, originalSize, payload, _) =>
      |padding| == 3 && originalSize <= U64_MAX && |payload| <= I64_MAX
    case Directory(reserved, path) =>
      reserved <= U32_MAX && PathFits(path)
    case File(path, originalSize, _, chunkHashes) =>
      PathFits(path) && originalSize <= U64_MAX && |chunkHashes| <= U32_MAX
  }

  predicate FooterFits(f: Footer) {
    && f.entries <= U64_MAX && f.files <= U64_MAX && f.directories <= U64_MAX && f.uniqueChunks <= U64_MAX
    && f.chunkReferences <= U64_MAX && f.originalBytes <= U64_MAX && f.storedPayloadBytes <= U64_MAX
    && f.deduplicatedBytes <= U64_MAX
  }

  predicate ArchiveFits(a: Archive) {
    && a.flags <= U32_MAX && a.reserved <= U32_MAX
    && (forall i :: 0 <= i < |a.records| ==> RecordFits(a.records[i]))
    && FooterFits(a.footer)
  }

  // ---------------------------------------------------------------- parsing

  function U16At(data: seq<byte>, p: nat): nat
    requires p + 2 <= |data|
  {
    FromLE(data[p..p + 2])
  }

  function U32At(data: seq<byte>, p: nat): nat
    requires p + 4 <= |data|
  {
    FromLE(data[p..p + 4])
  }

  function U64At(data: seq<byte>, p: nat): nat
    requires p + 8 <= |data|
  {
    FromLE(data[p..p + 8])
  }

  // `count` consecutive 32-byte digests.
  function DigestsAt(data: seq<byte>, p: nat, count: nat): (ds: seq<Digest>)
    requires p + 32 * count <= |data|
    ensures |ds| == count
  {
    seq(count, i requires 0 <= i < count => data[p + 32 * i..p + 32 * i + 32])
  }

  // The record whose marker is at p, and the offset after it.
  function RecordAt(data: seq<byte>, p: nat): (r: Option<(Record, nat)>)
    requires p + 4 <= |data|
    ensures r.Some? ==> p < r.value.1 <= |data|
  {
    var tag := data[p..p + 4];
    if tag == CHUNK_MAGIC then ChunkAt(data, p)
    else if tag == DIRECTORY_MAGIC then DirectoryAt(data, p)
    else if tag == FILE_MAGIC then FileAt(data, p)
    else None
  }

  function ChunkAt(data: seq<byte>, p: nat): Option<(Record, nat)> {
    var body := p + CHUNK_HEADER_SIZE;
    if body > |data| then None
    else
      var payloadSize := U64At(data, p + 16);
      if payloadSize > I64_MAX || body + payloadSize > |data| then None
      else Some((Chunk(data[p + 4], data[p + 5..p + 8], U64At(data, p + 8), data[body..body + payloadSize],
                       data[p + 24..p + 56]),
                 body + payloadSize))
  }

  function DirectoryAt(data: seq<byte>, p: nat): Option<(Record, nat)> {
    var body := p + DIRECTORY_HEADER_SIZE;
    if body > |data| then None
    else
      var pathLen := U32At(data, p + 4);
      if pathLen == 0 || pathLen > MAX_PATH_BYTES || body + pathLen > |data| then None
      else Some((Directory(U32At(data, p + 8), data[body..body + pathLen]), body + pathLen))
  }

  function FileAt(data: seq<byte>, p: nat): Option<(Record, nat)> {
    var body := p + FILE_HEADER_SIZE;
    if body > |data| then None
    else
      var pathLen, count := U32At(data, p + 4), U32At(data, p + 8);
      var refs := body + pathLen;
      if pathLen == 0 || pathLen > MAX_PATH_BYTES || refs + 32 * count > |data| then None
      else Some((File(data[body..refs], U64At(data, p + 12), data[p + 20..p + 52], DigestsAt(data, refs, count)),
                 refs + 32 * count))
  }

  function FooterAt(data: seq<byte>, p: nat): Footer
    requires p + FOOTER_SIZE <= |data|
  {
    Footer(U64At(data, p + 4), U64At(data, p + 12), U64At(data, p + 20), U64At(data, p + 28),
           U64At(data, p + 36), U64At(data, p + 44), U64At(data, p + 52), U64At(data, p + 60))
  }

  // Records up to and including the footer, and the offset after it.
  function RecordsAt(data: seq<byte>, p: nat): Option<(seq<Record>, Footer, nat)>
    decreases |data| - p
  {
    if p + 4 > |data| then None
    else if data[p..p + 4] == FOOTER_MAGIC then
      if p + FOOTER_SIZE > |data| then None else Some(([], FooterAt(data, p), p + FOOTER_SIZE))
    else
      var first := RecordAt(data, p);
      if first.None? then None
      else
        var rest := RecordsAt(data, first.value.1);
        if rest.None? then None
        else Some(([first.value.0] + rest.value.0, rest.value.1, rest.value.2))
  }

  predicate HeaderAccepted(data: seq<byte>) {
    && |data| >= HEADER_SIZE
    && data[0..4] == MAGIC
    && U16At(data, 4) == VERSION_MAJOR && U16At(data, 6) == VERSION_MINOR
  }

  function ParseArchive(data: seq<byte>): Option<Archive> {
    if !HeaderAccepted(data) then None
    else
      var body := RecordsAt(data, HEADER_SIZE);
      if body.None? || body.value.2 != |data| then None
      else Some(Archive(U32At(data, 8), U32At(data, 12), body.value.0, body.value.1))
  }
}
