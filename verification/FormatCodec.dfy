// Parsing inverts printing, record by record and for whole archives.
module FormatCodec {
  import opened Bytes
  import opened Sequences
  import opened Format

  // The bytes of data from p on start with b.
  predicate Holds(data: seq<byte>, p: nat, b: seq<byte>) {
    p + |b| <= |data| && data[p..p + |b|] == b
  }

  lemma HoldsPart(data: seq<byte>, p: nat, b: seq<byte>, i: nat, j: nat)
    requires Holds(data, p, b) && i <= j <= |b|
    ensures p + j <= |data| && data[p + i..p + j] == b[i..j]
  {
    var m := data[p..p + |b|];
    forall k | i <= k < j
      ensures data[p + k] == b[k]
    {
      assert m[k] == data[p + k];
    }
  }

  lemma HoldsConcat(data: seq<byte>, p: nat, a: seq<byte>, b: seq<byte>)
    ensures Holds(data, p, a + b) <==> Holds(data, p, a) && Holds(data, p + |a|, b)
  {
    if Holds(data, p, a + b) {
      HoldsPart(data, p, a + b, 0, |a|);
      HoldsPart(data, p, a + b, |a|, |a + b|);
    }
    if Holds(data, p, a) && Holds(data, p + |a|, b) {
      assert data[p..p + |a + b|] == data[p..p + |a|] + data[p + |a|..p + |a| + |b|];
    }
  }

  // ---------------------------------------------------------------- digests

  lemma {:induction false} DigestsConcatenate(data: seq<byte>, p: nat, count: nat)
    requires p + 32 * count <= |data|
    ensures Flatten(DigestsAt(data, p, count)) == data[p..p + 32 * count]
  {
    if count > 0 {
      var init := DigestsAt(data, p, count - 1);
      DigestsConcatenate(data, p, count - 1);
      assert DigestsAt(data, p, count) == init + [data[p + 32 * (count - 1)..p + 32 * count]];
      FlattenSnoc(init, data[p + 32 * (count - 1)..p + 32 * count]);
    }
  }

  lemma {:induction false} FlattenDigests(ds: seq<Digest>, i: nat)
    requires i < |ds|
    ensures |Flatten(ds)| == 32 * |ds|
    ensures Flatten(ds)[32 * i..32 * i + 32] == ds[i]
  {
    var n := |ds| - 1;
    DigestsLength(ds[..n]);
    if i < n {
      FlattenDigests(ds[..n], i);
      assert Flatten(ds)[32 * i..32 * i + 32] == Flatten(ds[..n])[32 * i..32 * i + 32];
    }
  }

  lemma {:induction false} DigestsLength(ds: seq<Digest>)
    ensures |Flatten(ds)| == 32 * |ds|
  {
    if ds != [] {
      DigestsLength(ds[..|ds| - 1]);
    }
  }

  lemma DigestsReadBack(data: seq<byte>, p: nat, ds: seq<Digest>)
    requires Holds(data, p, Flatten(ds))
    ensures p + 32 * |ds| <= |data| && DigestsAt(data, p, |ds|) == ds
  {
    hide Flatten;
    DigestsLength(ds);
    var found := DigestsAt(data, p, |ds|);
    forall i | 0 <= i < |ds|
      ensures found[i] == ds[i]
    {
      DigestInPlace(data, p, ds, i);
    }
  }

  lemma DigestInPlace(data: seq<byte>, p: nat, ds: seq<Digest>, i: nat)
    requires Holds(data, p, Flatten(ds)) && i < |ds|
    ensures p + 32 * i + 32 <= |data| && data[p + 32 * i..p + 32 * i + 32] == ds[i]
  {
    hide Flatten;
    DigestsLength(ds);
    FlattenDigests(ds, i);
    HoldsPart(data, p, Flatten(ds), 32 * i, 32 * i + 32);
  }

  // ---------------------------------------------------------------- records

  lemma ParsedChunk(data: seq<byte>, p: nat, r: Record, q: nat)
    requires Holds(data, p, CHUNK_MAGIC) && ChunkAt(data, p) == Some((r, q))
    ensures RecordFits(r) && Holds(data, p, PrintRecord(r)) && q == p + |PrintRecord(r)|
  {
    hide FromLE, ToLE;
    Widths();
    ToFromLE(data[p + 8..p + 16]);
    ToFromLE(data[p + 16..p + 24]);
    assert data[p + 4..p + 5] == [data[p + 4]];
    Adjacent(data, p, p + 4, p + 5);
    Adjacent(data, p, p + 5, p + 8);
    Adjacent(data, p, p + 8, p + 16);
    Adjacent(data, p, p + 16, p + 24);
    Adjacent(data, p, p + 24, p + 56);
    Adjacent(data, p, p + 56, q);
  }

  lemma ChunkParts(r: Record)
    requires r.Chunk? && RecordFits(r)
    ensures var b := PrintRecord(r);
      && |b| == CHUNK_HEADER_SIZE + |r.payload|
      && b[0..4] == CHUNK_MAGIC && b[4..5] == [r.compression] && b[5..8] == r.padding
      && b[8..16] == ToLE(r.originalSize, 8) && b[16..24] == ToLE(|r.payload|, 8)
      && b[24..56] == r.hash && b[56..] == r.payload
  {
    hide ToLE;
  }

  lemma PrintedChunk(data: seq<byte>, p: nat, r: Record)
    requires r.Chunk? && RecordFits(r) && Holds(data, p, PrintRecord(r))
    ensures Holds(data, p, CHUNK_MAGIC) && ChunkAt(data, p) == Some((r, p + |PrintRecord(r)|))
  {
    hide FromLE, ToLE, ChunkAt;
    var b := PrintRecord(r);
    ChunkParts(r);
    hide PrintRecord;
    HoldsPart(data, p, b, 0, 4);
    HoldsPart(data, p, b, 4, 5);
    HoldsPart(data, p, b, 5, 8);
    FieldReads(data, p, b, 8, r.originalSize);
    FieldReads(data, p, b, 16, |r.payload|);
    HoldsPart(data, p, b, 24, 56);
    HoldsPart(data, p, b, 56, |b|);
    ChunkFields(data, p, r);
  }

  lemma ChunkFields(data: seq<byte>, p: nat, r: Record)
    requires r.Chunk? && |r.payload| <= I64_MAX && p + CHUNK_HEADER_SIZE + |r.payload| <= |data|
    requires data[p + 4..p + 5] == [r.compression] && data[p + 5..p + 8] == r.padding
    requires U64At(data, p + 8) == r.originalSize && U64At(data, p + 16) == |r.payload|
    requires data[p + 24..p + 56] == r.hash
    requires data[p + 56..p + 56 + |r.payload|] == r.payload
    ensures ChunkAt(data, p) == Some((r, p + CHUNK_HEADER_SIZE + |r.payload|))
  {
    hide U64At;
    assert data[p + 4] == data[p + 4..p + 5][0];
  }

  lemma ParsedDirectory(data: seq<byte>, p: nat, r: Record, q: nat)
    requires Holds(data, p, DIRECTORY_MAGIC) && DirectoryAt(data, p) == Some((r, q))
    ensures RecordFits(r) && Holds(data, p, PrintRecord(r)) && q == p + |PrintRecord(r)|
  {
    hide FromLE, ToLE;
    Widths();
    ToFromLE(data[p + 4..p + 8]);
    ToFromLE(data[p + 8..p + 12]);
    assert data[p..q] == data[p..p + 4] + data[p + 4..p + 8] + data[p + 8..p + 12] + data[p + 12..q];
  }

  lemma PrintedDirectory(data: seq<byte>, p: nat, r: Record)
    requires r.Directory? && RecordFits(r) && Holds(data, p, PrintRecord(r))
    ensures Holds(data, p, DIRECTORY_MAGIC) && DirectoryAt(data, p) == Some((r, p + |PrintRecord(r)|))
  {
    hide FromLE, ToLE;
    var b := PrintRecord(r);
    HoldsPart(data, p, b, 0, 4);
    HoldsPart(data, p, b, 4, 8);
    HoldsPart(data, p, b, 8, 12);
    HoldsPart(data, p, b, 12, |b|);
    assert b[4..8] == ToLE(|r.path|, 4);
    assert b[8..12] == ToLE(r.reserved, 4);
    LE32(|r.path|);
    LE32(r.reserved);
  }

  lemma ParsedFileHeader(data: seq<byte>, p: nat)
    requires Holds(data, p, FILE_MAGIC) && p + FILE_HEADER_SIZE <= |data|
    ensures data[p..p + 52]
         == FileHeaderBytes(U32At(data, p + 4), U32At(data, p + 8), U64At(data, p + 12), data[p + 20..p + 52])
    ensures U32At(data, p + 8) <= U32_MAX && U64At(data, p + 12) <= U64_MAX
  {
    hide FromLE, ToLE;
    Widths();
    ToFromLE(data[p + 4..p + 8]);
    ToFromLE(data[p + 8..p + 12]);
    ToFromLE(data[p + 12..p + 20]);
    Adjacent(data, p, p + 4, p + 8);
    Adjacent(data, p, p + 8, p + 12);
    Adjacent(data, p, p + 12, p + 20);
    Adjacent(data, p, p + 20, p + 52);
  }

  lemma ParsedFile(data: seq<byte>, p: nat, r: Record, q: nat)
    requires Holds(data, p, FILE_MAGIC) && FileAt(data, p) == Some((r, q))
    ensures RecordFits(r) && Holds(data, p, PrintRecord(r)) && q == p + |PrintRecord(r)|
  {
    hide FromLE, ToLE, Flatten, FileHeaderBytes, U32At, U64At, DigestsAt;
    ParsedFileHeader(data, p);
    var refs := p + FILE_HEADER_SIZE + |r.path|;
    DigestsConcatenate(data, refs, |r.chunkHashes|);
    Adjacent(data, p, p + 52, refs);
    Adjacent(data, p, refs, q);
  }

  lemma PrintedFile(data: seq<byte>, p: nat, r: Record)
    requires r.File? && RecordFits(r) && Holds(data, p, PrintRecord(r))
    ensures Holds(data, p, FILE_MAGIC) && FileAt(data, p) == Some((r, p + |PrintRecord(r)|))
  {
    hide FromLE, ToLE, Flatten;
    var b := PrintRecord(r);
    var refs := FILE_HEADER_SIZE + |r.path|;
    DigestsLength(r.chunkHashes);
    HoldsPart(data, p, b, 0, 4);
    HoldsPart(data, p, b, 4, 8);
    HoldsPart(data, p, b, 8, 12);
    HoldsPart(data, p, b, 12, 20);
    HoldsPart(data, p, b, 20, 52);
    HoldsPart(data, p, b, 52, refs);
    HoldsPart(data, p, b, refs, |b|);
    assert b[4..8] == ToLE(|r.path|, 4);
    assert b[8..12] == ToLE(|r.chunkHashes|, 4);
    assert b[12..20] == ToLE(r.originalSize, 8);
    assert b[0..4] == FILE_MAGIC;
    assert b[20..52] == r.hash;
    assert b[52..refs] == r.path;
    assert b[refs..] == Flatten(r.chunkHashes);
    LE32(|r.path|);
    LE32(|r.chunkHashes|);
    LE64(r.originalSize);
    DigestsReadBack(data, p + refs, r.chunkHashes);
  }

  // A record is parsed at p exactly when its print stands at p.
  lemma RecordCodec(data: seq<byte>, p: nat, r: Record, q: nat)
    requires p + 4 <= |data|
    ensures RecordAt(data, p) == Some((r, q))
      <==> RecordFits(r) && Holds(data, p, PrintRecord(r)) && q == p + |PrintRecord(r)|
  {
    hide ChunkAt, DirectoryAt, FileAt, PrintRecord;
    if RecordAt(data, p) == Some((r, q)) {
      var tag := data[p..p + 4];
      if tag == CHUNK_MAGIC {
        ParsedChunk(data, p, r, q);
      } else if tag == DIRECTORY_MAGIC {
        ParsedDirectory(data, p, r, q);
      } else {
        ParsedFile(data, p, r, q);
      }
    }
    if RecordFits(r) && Holds(data, p, PrintRecord(r)) {
      match r {
        case Chunk(_, _, _, _, _) => PrintedChunk(data, p, r);
        case Directory(_, _) => PrintedDirectory(data, p, r);
        case File(_, _, _, _) => PrintedFile(data, p, r);
      }
    }
  }

  // ----------------------------------------------------- footer and header

  lemma FooterCodec(data: seq<byte>, p: nat, f: Footer)
    requires p + FOOTER_SIZE <= |data|
    ensures data[p..p + 4] == FOOTER_MAGIC && FooterAt(data, p) == f
      <==> FooterFits(f) && Holds(data, p, PrintFooter(f))
  {
    hide FromLE, ToLE;
    if data[p..p + 4] == FOOTER_MAGIC && FooterAt(data, p) == f {
      ParsedFooter(data, p, f);
    }
    if FooterFits(f) && Holds(data, p, PrintFooter(f)) {
      PrintedFooter(data, p, f);
    }
  }

  lemma ParsedFooter(data: seq<byte>, p: nat, f: Footer)
    requires p + FOOTER_SIZE <= |data|
    requires data[p..p + 4] == FOOTER_MAGIC && FooterAt(data, p) == f
    ensures FooterFits(f) && Holds(data, p, PrintFooter(f))
  {
    hide FromLE, ToLE;
    Widths();
    ToFromLE(data[p + 4..p + 12]);
    ToFromLE(data[p + 12..p + 20]);
    ToFromLE(data[p + 20..p + 28]);
    ToFromLE(data[p + 28..p + 36]);
    ToFromLE(data[p + 36..p + 44]);
    ToFromLE(data[p + 44..p + 52]);
    ToFromLE(data[p + 52..p + 60]);
    ToFromLE(data[p + 60..p + 68]);
    Adjacent(data, p, p + 4, p + 12);
    Adjacent(data, p, p + 12, p + 20);
    Adjacent(data, p, p + 20, p + 28);
    Adjacent(data, p, p + 28, p + 36);
    Adjacent(data, p, p + 36, p + 44);
    Adjacent(data, p, p + 44, p + 52);
    Adjacent(data, p, p + 52, p + 60);
    Adjacent(data, p, p + 60, p + 68);
  }

  lemma PrintedFooter(data: seq<byte>, p: nat, f: Footer)
    requires p + FOOTER_SIZE <= |data| && FooterFits(f) && Holds(data, p, PrintFooter(f))
    ensures data[p..p + 4] == FOOTER_MAGIC && FooterAt(data, p) == f
  {
    hide FromLE, ToLE;
    var b := PrintFooter(f);
    HoldsPart(data, p, b, 0, 4);
    assert b[0..4] == FOOTER_MAGIC;
    FieldReads(data, p, b, 4, f.entries);
    FieldReads(data, p, b, 12, f.files);
    FieldReads(data, p, b, 20, f.directories);
    FieldReads(data, p, b, 28, f.uniqueChunks);
    FieldReads(data, p, b, 36, f.chunkReferences);
    FieldReads(data, p, b, 44, f.originalBytes);
    FieldReads(data, p, b, 52, f.storedPayloadBytes);
    FieldReads(data, p, b, 60, f.deduplicatedBytes);
  }

  lemma FieldReads(data: seq<byte>, p: nat, b: seq<byte>, i: nat, n: nat)
    requires Holds(data, p, b) && i + 8 <= |b| && b[i..i + 8] == ToLE(n, 8) && n <= U64_MAX
    ensures p + i + 8 <= |data| && U64At(data, p + i) == n
  {
    hide FromLE, ToLE;
    HoldsPart(data, p, b, i, i + 8);
    LE64(n);
  }

  lemma HeaderCodec(data: seq<byte>, flags: nat, reserved: nat)
    ensures HeaderAccepted(data) && U32At(data, 8) == flags && U32At(data, 12) == reserved
      <==> flags <= U32_MAX && reserved <= U32_MAX && Holds(data, 0, PrintHeader(flags, reserved))
  {
    hide FromLE, ToLE;
    Widths();
    if HeaderAccepted(data) && U32At(data, 8) == flags && U32At(data, 12) == reserved {
      ToFromLE(data[4..6]);
      ToFromLE(data[6..8]);
      ToFromLE(data[8..12]);
      ToFromLE(data[12..16]);
      assert data[0..16] == data[0..4] + data[4..6] + data[6..8] + data[8..12] + data[12..16];
    }
    if flags <= U32_MAX && reserved <= U32_MAX && Holds(data, 0, PrintHeader(flags, reserved)) {
      var b := PrintHeader(flags, reserved);
      HoldsPart(data, 0, b, 0, 4);
      HoldsPart(data, 0, b, 4, 6);
      HoldsPart(data, 0, b, 6, 8);
      HoldsPart(data, 0, b, 8, 12);
      HoldsPart(data, 0, b, 12, 16);
      assert b[0..4] == MAGIC && b[4..6] == ToLE(VERSION_MAJOR, 2) && b[6..8] == ToLE(VERSION_MINOR, 2);
      assert b[8..12] == ToLE(flags, 4) && b[12..16] == ToLE(reserved, 4);
      FromToLE(VERSION_MAJOR, 2);
      FromToLE(VERSION_MINOR, 2);
      LE32(flags);
      LE32(reserved);
    }
  }

  // -------------------------------------------------------- whole archives

  lemma {:induction false} PrintRecordsAppend(a: seq<Record>, b: seq<Record>)
    ensures PrintRecords(a + b) == PrintRecords(a) + PrintRecords(b)
  {
    hide PrintRecord;
    if b == [] {
      assert a + b == a;
    } else {
      hide PrintRecords;
      var init, last := b[..|b| - 1], b[|b| - 1];
      PrintRecordsAppend(a, init);
      PrintRecordsSnoc(a + init, last);
      PrintRecordsSnoc(init, last);
      assert b == init + [last] && a + b == (a + init) + [last];
    }
  }

  lemma PrintRecordsSnoc(rs: seq<Record>, r: Record)
    ensures PrintRecords(rs + [r]) == PrintRecords(rs) + PrintRecord(r)
  {
    hide PrintRecord;
    assert (rs + [r])[..|rs|] == rs;
  }

  lemma ChunkRecordLength(r: Record)
    requires r.Chunk? && RecordFits(r)
    ensures |PrintRecord(r)| == CHUNK_HEADER_SIZE + |r.payload|
  {
  }

  lemma PrintRecordsCons(r: Record, rs: seq<Record>)
    ensures PrintRecords([r] + rs) == PrintRecord(r) + PrintRecords(rs)
  {
    hide PrintRecord;
    PrintRecordsAppend([r], rs);
    assert [r][..0] == [];
    assert PrintRecords([r]) == [] + PrintRecord(r);
  }

  predicate AllFit(rs: seq<Record>) {
    forall i :: 0 <= i < |rs| ==> RecordFits(rs[i])
  }

  lemma RecordNotFooter(data: seq<byte>, p: nat, r: Record)
    requires Holds(data, p, PrintRecord(r))
    ensures p + 4 <= |data| && data[p..p + 4] != FOOTER_MAGIC
  {
    HoldsPart(data, p, PrintRecord(r), 0, 4);
    var tag := PrintRecord(r)[0..4];
    assert tag == CHUNK_MAGIC || tag == DIRECTORY_MAGIC || tag == FILE_MAGIC;
    assert FOOTER_MAGIC[0] == 0x52;
    assert CHUNK_MAGIC[0] == 0x43 && DIRECTORY_MAGIC[0] == 0x44 && FILE_MAGIC[0] == 0x46;
  }

  lemma {:induction false} RecordsParsed(data: seq<byte>, p: nat)
    requires RecordsAt(data, p).Some?
    ensures var (rs, f, q) := RecordsAt(data, p).value;
      && AllFit(rs) && FooterFits(f)
      && Holds(data, p, PrintRecords(rs) + PrintFooter(f))
      && q == p + |PrintRecords(rs) + PrintFooter(f)|
    decreases |data| - p
  {
    hide RecordAt, PrintRecord, PrintFooter, FooterAt, RecordFits;
    if data[p..p + 4] == FOOTER_MAGIC {
      var f := FooterAt(data, p);
      FooterCodec(data, p, f);
      assert [] + PrintFooter(f) == PrintFooter(f);
    } else {
      var (r, next) := RecordAt(data, p).value;
      RecordCodec(data, p, r, next);
      RecordsParsed(data, next);
      var (rs, f, q) := RecordsAt(data, next).value;
      PrintRecordsCons(r, rs);
      HoldsConcat(data, p, PrintRecord(r), PrintRecords(rs) + PrintFooter(f));
      assert PrintRecord(r) + (PrintRecords(rs) + PrintFooter(f)) == PrintRecords([r] + rs) + PrintFooter(f);
    }
  }

  lemma {:induction false} RecordsPrinted(data: seq<byte>, p: nat, rs: seq<Record>, f: Footer)
    requires AllFit(rs) && FooterFits(f)
    requires Holds(data, p, PrintRecords(rs) + PrintFooter(f))
    ensures RecordsAt(data, p) == Some((rs, f, p + |PrintRecords(rs) + PrintFooter(f)|))
    decreases |rs|
  {
    hide RecordAt, PrintRecord, PrintFooter, FooterAt, RecordFits;
    if rs == [] {
      assert [] + PrintFooter(f) == PrintFooter(f);
      FooterCodec(data, p, f);
    } else {
      var r, tail := rs[0], rs[1..];
      assert rs == [r] + tail;
      PrintRecordsCons(r, tail);
      var rest := PrintRecords(tail) + PrintFooter(f);
      assert PrintRecords(rs) + PrintFooter(f) == PrintRecord(r) + rest;
      HoldsConcat(data, p, PrintRecord(r), rest);
      RecordNotFooter(data, p, r);
      RecordCodec(data, p, r, p + |PrintRecord(r)|);
      RecordsPrinted(data, p + |PrintRecord(r)|, tail, f);
    }
  }

  // Parsing accepts exactly the prints of archives whose values fit their
  // fields, so parsing and printing are inverse to each other.
  lemma ArchiveCodec(data: seq<byte>, a: Archive)
    ensures ParseArchive(data) == Some(a) <==> ArchiveFits(a) && data == PrintArchive(a)
  {
    hide RecordsAt, PrintRecords, PrintFooter, HeaderAccepted, PrintHeader, RecordFits, FromLE;
    var body := PrintRecords(a.records) + PrintFooter(a.footer);
    assert PrintArchive(a) == PrintHeader(a.flags, a.reserved) + body;
    HeaderCodec(data, a.flags, a.reserved);
    HoldsConcat(data, 0, PrintHeader(a.flags, a.reserved), body);
    if ParseArchive(data) == Some(a) {
      RecordsParsed(data, HEADER_SIZE);
      assert data[0..|data|] == data;
    }
    if ArchiveFits(a) && data == PrintArchive(a) {
      assert data[0..|data|] == data;
      RecordsPrinted(data, HEADER_SIZE, a.records, a.footer);
    }
  }

  // Distinct archives never print alike.
  lemma PrintInjective(a: Archive, b: Archive)
    requires ArchiveFits(a) && ArchiveFits(b) && PrintArchive(a) == PrintArchive(b)
    ensures a == b
  {
    ArchiveCodec(PrintArchive(a), a);
    ArchiveCodec(PrintArchive(a), b);
  }

  // No archive is a proper prefix of another: a shortened archive is never
  // taken for a whole one.
  lemma NoProperPrefix(short: seq<byte>, data: seq<byte>)
    requires short < data && ParseArchive(data).Some?
    ensures ParseArchive(short).None?
  {
    hide RecordsAt, PrintRecords, PrintFooter, PrintHeader, HeaderAccepted, RecordFits, FromLE;
    if ParseArchive(short).Some? {
      var b := ParseArchive(short).value;
      ArchiveCodec(short, b);
      var body := PrintRecords(b.records) + PrintFooter(b.footer);
      assert short == PrintHeader(b.flags, b.reserved) + body;
      assert data[HEADER_SIZE..HEADER_SIZE + |body|] == short[HEADER_SIZE..];
      RecordsPrinted(data, HEADER_SIZE, b.records, b.footer);
      assert false;
    }
  }
}
