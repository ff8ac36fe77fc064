// The bytes readers ignore: an accepted archive is its own canonical print
// but for header flags and reserved fields.
module Reprint {
  import opened Bytes
  import opened Format
  import opened FormatCodec
  import opened Catalog

  // The record as the writer would have printed it.
  function CanonicalRecord(r: Record): Record {
    match r
    case Chunk(_, _, _, _, _) => r.(padding := [0, 0, 0])
    case Directory(_, _) => r.(reserved := 0)
    case File(_, _, _, _) => r
  }

  function CanonicalRecords(rs: seq<Record>): (cs: seq<Record>)
    ensures |cs| == |rs|
  {
    if rs == [] then [] else CanonicalRecords(rs[..|rs| - 1]) + [CanonicalRecord(rs[|rs| - 1])]
  }

  function Canonical(a: Archive): Archive {
    Archive(0, 0, CanonicalRecords(a.records), a.footer)
  }

  // The k-th byte of a record's print carries nothing.
  predicate IgnoredInRecord(r: Record, k: nat) {
    (r.Chunk? && 5 <= k < 8) || (r.Directory? && 8 <= k < 12)
  }

  predicate IgnoredByRecord(rs: seq<Record>, j: nat, i: nat) {
    && j < |rs|
    && var before := |PrintRecords(rs[..j])|;
       before <= i && IgnoredInRecord(rs[j], i - before)
  }

  ghost predicate IgnoredInRecords(rs: seq<Record>, i: nat) {
    exists j: nat :: IgnoredByRecord(rs, j, i)
  }

  // The i-th byte of an archive's print is a header flag, a header reserved
  // byte, or a reserved byte of one record.
  ghost predicate Ignored(a: Archive, i: nat) {
    || 8 <= i < HEADER_SIZE
    || (i >= HEADER_SIZE && IgnoredInRecords(a.records, i - HEADER_SIZE))
  }

  lemma RecordReprints(r: Record)
    requires RecordFits(r)
    ensures RecordFits(CanonicalRecord(r))
    ensures var b, c := PrintRecord(r), PrintRecord(CanonicalRecord(r));
      |b| == |c| && forall k: nat :: k < |b| && b[k] != c[k] ==> IgnoredInRecord(r, k)
  {
    hide ToLE;
  }

  lemma {:induction false} RecordsReprint(rs: seq<Record>)
    requires AllFit(rs)
    ensures AllFit(CanonicalRecords(rs))
    ensures var b, c := PrintRecords(rs), PrintRecords(CanonicalRecords(rs));
      |b| == |c| && forall i: nat :: i < |b| && b[i] != c[i] ==> IgnoredInRecords(rs, i)
  {
    hide PrintRecord, IgnoredInRecord, CanonicalRecord, RecordFits;
    if rs != [] {
      var n := |rs| - 1;
      var init, last := rs[..n], rs[n];
      RecordsReprint(init);
      RecordReprints(last);
      assert CanonicalRecords(rs)[..n] == CanonicalRecords(init);
      var b, c := PrintRecords(rs), PrintRecords(CanonicalRecords(rs));
      forall i: nat | i < |b| && b[i] != c[i]
        ensures IgnoredInRecords(rs, i)
      {
        if i < |PrintRecords(init)| {
          var j: nat :| IgnoredByRecord(init, j, i);
          assert init[..j] == rs[..j];
          assert IgnoredByRecord(rs, j, i);
        } else {
          assert IgnoredByRecord(rs, n, i);
        }
      }
    }
  }

  // The catalog checks never look at the ignored fields.
  lemma {:induction false} FoldCanonical(utf8: seq<byte> -> bool, rs: seq<Record>)
    requires AllFit(rs)
    ensures Fold(utf8, CanonicalRecords(rs)) == Fold(utf8, rs)
  {
    hide ApplyChunk, ApplyDirectory, ApplyFile, RecordFits, PrintRecords;
    if rs != [] {
      var n := |rs| - 1;
      FoldCanonical(utf8, rs[..n]);
      RecordsReprint(rs[..n]);
      assert CanonicalRecords(rs)[..n] == CanonicalRecords(rs[..n]);
    }
  }

  lemma HeaderReprints(flags: nat, reserved: nat, i: nat)
    ensures i < 8 ==> PrintHeader(flags, reserved)[i] == PrintHeader(0, 0)[i]
  {
    hide ToLE;
    var fixed := MAGIC + ToLE(VERSION_MAJOR, 2) + ToLE(VERSION_MINOR, 2);
    assert PrintHeader(flags, reserved)[..8] == fixed == PrintHeader(0, 0)[..8];
    if i < 8 {
      assert PrintHeader(flags, reserved)[i] == PrintHeader(flags, reserved)[..8][i];
      assert PrintHeader(0, 0)[i] == PrintHeader(0, 0)[..8][i];
    }
  }

  // The canonical form of an archive fits, prints to the same length, and
  // differs from it in ignored bytes only.
  lemma ArchiveReprints(a: Archive)
    requires ArchiveFits(a)
    ensures ArchiveFits(Canonical(a))
    ensures var b, c := PrintArchive(a), PrintArchive(Canonical(a));
      |b| == |c| && forall i: nat :: i < |b| && b[i] != c[i] ==> Ignored(a, i)
  {
    hide PrintRecords, PrintHeader, PrintFooter, CanonicalRecords, IgnoredInRecords;
    RecordsReprint(a.records);
    var b, c := PrintArchive(a), PrintArchive(Canonical(a));
    forall i: nat | i < |b| && b[i] != c[i]
      ensures Ignored(a, i)
    {
      HeaderReprints(a.flags, a.reserved, i);
    }
  }

  // ---------------------------------------------- readers ignore those bytes

  // Archives with the same canonical form scan alike: no reader looks at the
  // header flags or at a reserved field.
  lemma CanonicalScansAlike(utf8: seq<byte> -> bool, a: Archive, b: Archive)
    requires ArchiveFits(a) && ArchiveFits(b) && Canonical(a) == Canonical(b)
    ensures Scanned(utf8, PrintArchive(a)) == Scanned(utf8, PrintArchive(b))
  {
    hide Fold, Conclude, PrintArchive, CanonicalRecords, ParseArchive;
    ArchiveCodec(PrintArchive(a), a);
    ArchiveCodec(PrintArchive(b), b);
    FoldCanonical(utf8, a.records);
    FoldCanonical(utf8, b.records);
  }

  predicate DiffersWithin(b: seq<byte>, c: seq<byte>, r: Record) {
    |b| == |c| && forall k: nat :: k < |b| && b[k] != c[k] ==> IgnoredInRecord(r, k)
  }

  // Whatever stands in the ignored bytes of a record, it is a record that
  // differs in its reserved field at most.
  lemma RecordRead(r: Record, c: seq<byte>) returns (r': Record)
    requires RecordFits(r) && DiffersWithin(PrintRecord(r), c, r)
    ensures RecordFits(r') && CanonicalRecord(r') == CanonicalRecord(r) && PrintRecord(r') == c
  {
    match r
    case Chunk(compression, padding, originalSize, payload, hash) =>
      r' := r.(padding := c[5..8]);
      ChunkRead(r, c, r');
    case Directory(reserved, path) =>
      r' := r.(reserved := FromLE(c[8..12]));
      DirectoryRead(r, c, r');
    case File(_, _, _, _) =>
      r' := r;
      assert PrintRecord(r) == c;
  }

  lemma ChunkRead(r: Record, c: seq<byte>, r': Record)
    requires r.Chunk? && RecordFits(r) && DiffersWithin(PrintRecord(r), c, r)
    requires |c| >= 8 && r' == r.(padding := c[5..8])
    ensures PrintRecord(r') == c
  {
    hide ToLE;
    var b := PrintRecord(r);
    assert PrintRecord(r') == b[..5] + c[5..8] + b[8..];
  }

  lemma DirectoryRead(r: Record, c: seq<byte>, r': Record)
    requires r.Directory? && RecordFits(r) && DiffersWithin(PrintRecord(r), c, r)
    requires |c| >= 12 && r' == r.(reserved := FromLE(c[8..12]))
    ensures RecordFits(r') && PrintRecord(r') == c
  {
    hide ToLE;
    var b := PrintRecord(r);
    Widths();
    ToFromLE(c[8..12]);
    assert PrintRecord(r') == b[..8] + c[8..12] + b[12..];
  }

  ghost predicate DiffersAmong(b: seq<byte>, c: seq<byte>, rs: seq<Record>) {
    |b| == |c| && forall i: nat :: i < |b| && b[i] != c[i] ==> IgnoredInRecords(rs, i)
  }

  // The same for a run of records.
  lemma {:induction false} RecordsRead(rs: seq<Record>, c: seq<byte>) returns (rs': seq<Record>)
    requires AllFit(rs) && DiffersAmong(PrintRecords(rs), c, rs)
    ensures AllFit(rs') && CanonicalRecords(rs') == CanonicalRecords(rs) && PrintRecords(rs') == c
  {
    hide PrintRecord, CanonicalRecord, RecordFits, PrintRecords;
    if rs == [] {
      rs' := [];
      NoRecords();
    } else {
      var n := |rs| - 1;
      var init, last := rs[..n], rs[n];
      var m := |PrintRecords(init)|;
      PrintRecordsSnoc(init, last);
      assert rs == init + [last];
      BytesApart(rs, c);
      var init' := RecordsRead(init, c[..m]);
      var last' := RecordRead(last, c[m..]);
      rs' := init' + [last'];
      PrintRecordsSnoc(init', last');
      assert rs'[..n] == init' by { assert |CanonicalRecords(init')| == |CanonicalRecords(init)|; }
      assert c == c[..m] + c[m..];
    }
  }

  lemma NoRecords()
    ensures PrintRecords([]) == []
  {
  }

  // Differences among records are differences among the first ones and
  // differences within the last.
  lemma BytesApart(rs: seq<Record>, c: seq<byte>)
    requires rs != [] && DiffersAmong(PrintRecords(rs), c, rs)
    ensures var n := |rs| - 1;
      var m := |PrintRecords(rs[..n])|;
      && m <= |c|
      && DiffersAmong(PrintRecords(rs[..n]), c[..m], rs[..n])
      && DiffersWithin(PrintRecord(rs[n]), c[m..], rs[n])
  {
    hide PrintRecord, IgnoredInRecord;
    var n := |rs| - 1;
    var init, last := PrintRecords(rs[..n]), PrintRecord(rs[n]);
    var b, m := PrintRecords(rs), |init|;
    assert b == init + last;
    forall i: nat | i < m && init[i] != c[..m][i]
      ensures IgnoredInRecords(rs[..n], i)
    {
      var j := DifferenceAt(rs, i);
      assert rs[..n][..j] == rs[..j];
      assert IgnoredByRecord(rs[..n], j, i);
    }
    forall k: nat | k < |last| && last[k] != c[m..][k]
      ensures IgnoredInRecord(rs[n], k)
    {
      assert b[m + k] == last[k] && c[m + k] == c[m..][k];
      var j := DifferenceAt(rs, m + k);
    }
  }

  // An ignored byte belongs to the record that it lies in.
  lemma DifferenceAt(rs: seq<Record>, i: nat) returns (j: nat)
    requires rs != [] && i < |PrintRecords(rs)|
    requires IgnoredInRecords(rs, i)
    ensures IgnoredByRecord(rs, j, i)
    ensures j < |rs| - 1 <==> i < |PrintRecords(rs[..|rs| - 1])|
  {
    hide PrintRecord;
    var n := |rs| - 1;
    j :| IgnoredByRecord(rs, j, i);
    IgnoredInside(rs, j, i);
  }

  lemma IgnoredInside(rs: seq<Record>, j: nat, i: nat)
    requires IgnoredByRecord(rs, j, i)
    ensures |PrintRecords(rs[..j])| <= i < |PrintRecords(rs[..j + 1])|
    ensures j < |rs| - 1 ==> |PrintRecords(rs[..j + 1])| <= |PrintRecords(rs[..|rs| - 1])|
  {
    hide PrintRecord;
    RecordLong(rs[j]);
    assert rs[..j + 1] == rs[..j] + [rs[j]];
    PrintRecordsSnoc(rs[..j], rs[j]);
    if j < |rs| - 1 {
      assert rs[..|rs| - 1][..j + 1] == rs[..j + 1];
      PrintRecordsGrow(rs[..|rs| - 1], j + 1);
    }
  }

  lemma RecordLong(r: Record)
    ensures forall k: nat :: IgnoredInRecord(r, k) ==> k < |PrintRecord(r)|
  {
    hide ToLE;
  }

  lemma IgnoredIndex(rs: seq<Record>, j: nat, i: nat)
    requires IgnoredByRecord(rs, j, i)
    ensures j < |rs|
  {
  }

  lemma PrintRecordsGrow(rs: seq<Record>, k: nat)
    requires k <= |rs|
    ensures |PrintRecords(rs[..k])| <= |PrintRecords(rs)|
  {
    assert rs == rs[..k] + rs[k..];
    PrintRecordsAppend(rs[..k], rs[k..]);
  }

  // Neither the marker and version nor the footer can be changed.
  lemma IgnoredBeforeFooter(a: Archive, i: nat)
    requires Ignored(a, i)
    ensures 8 <= i < HEADER_SIZE + |PrintRecords(a.records)|
  {
    hide PrintRecords, IgnoredByRecord;
    if i >= HEADER_SIZE {
      var j: nat :| IgnoredByRecord(a.records, j, i - HEADER_SIZE);
      IgnoredInside(a.records, j, i - HEADER_SIZE);
      IgnoredIndex(a.records, j, i - HEADER_SIZE);
      PrintRecordsGrow(a.records, j + 1);
    }
  }

  // ------------------------------------------------------ the only freedom

  ghost predicate DiffersInIgnored(a: Archive, c: seq<byte>) {
    var b := PrintArchive(a);
    |c| == |b| && forall i: nat :: i < |b| && b[i] != c[i] ==> Ignored(a, i)
  }

  // The bytes that readers take for an archive with the same contents are
  // exactly those that differ from its print in ignored bytes only.
  lemma OnlyFreedom(a: Archive, c: seq<byte>)
    requires ArchiveFits(a)
    ensures DiffersInIgnored(a, c)
      <==> ParseArchive(c).Some? && Canonical(ParseArchive(c).value) == Canonical(a)
  {
    hide PrintArchive, ParseArchive, Ignored, CanonicalRecords;
    if DiffersInIgnored(a, c) {
      var a' := ArchiveRead(a, c);
      ArchiveCodec(c, a');
    }
    if ParseArchive(c).Some? && Canonical(ParseArchive(c).value) == Canonical(a) {
      var a' := ParseArchive(c).value;
      ArchiveCodec(c, a');
      ArchiveReprints(a);
      ArchiveReprints(a');
      forall i: nat | i < |c| && PrintArchive(a)[i] != c[i]
        ensures Ignored(a, i)
      {
        if !Ignored(a, i) {
          SameIgnored(a, a', i);
        }
      }
    }
  }

  lemma ArchiveRead(a: Archive, c: seq<byte>) returns (a': Archive)
    requires ArchiveFits(a) && DiffersInIgnored(a, c)
    ensures ArchiveFits(a') && Canonical(a') == Canonical(a) && PrintArchive(a') == c
  {
    hide PrintRecords, PrintHeader, PrintFooter, CanonicalRecords, IgnoredInRecords, FromLE, RecordFits;
    var m := HEADER_SIZE + |PrintRecords(a.records)|;
    var header, body, footer := c[..HEADER_SIZE], c[HEADER_SIZE..m], c[m..];
    PartsApart(a, c);
    var records := RecordsRead(a.records, body);
    HeaderRead(a, header);
    a' := Archive(FromLE(header[8..12]), FromLE(header[12..16]), records, a.footer);
    assert c == header + body + footer;
  }

  // The three parts of an archive, each with its own ignored bytes.
  lemma PartsApart(a: Archive, c: seq<byte>)
    requires ArchiveFits(a) && DiffersInIgnored(a, c)
    ensures var m := HEADER_SIZE + |PrintRecords(a.records)|;
      && m <= |c|
      && c[..8] == PrintHeader(a.flags, a.reserved)[..8]
      && DiffersAmong(PrintRecords(a.records), c[HEADER_SIZE..m], a.records)
      && c[m..] == PrintFooter(a.footer)
  {
    hide PrintRecords, PrintHeader, PrintFooter, RecordFits, IgnoredInRecords;
    var b, records := PrintArchive(a), PrintRecords(a.records);
    var m := HEADER_SIZE + |records|;
    forall i: nat | i < |b| && (i < 8 || i >= m)
      ensures b[i] == c[i]
    {
      if b[i] != c[i] {
        IgnoredBeforeFooter(a, i);
      }
    }
    assert b[HEADER_SIZE..m] == records && b[m..] == PrintFooter(a.footer);
    assert b[..8] == PrintHeader(a.flags, a.reserved)[..8];
    forall i: nat | i < |records| && records[i] != c[HEADER_SIZE..m][i]
      ensures IgnoredInRecords(a.records, i)
    {
      assert b[HEADER_SIZE + i] == records[i] && c[HEADER_SIZE + i] == c[HEADER_SIZE..m][i];
      assert Ignored(a, HEADER_SIZE + i);
    }
  }

  lemma HeaderRead(a: Archive, header: seq<byte>)
    requires |header| == HEADER_SIZE && header[..8] == PrintHeader(a.flags, a.reserved)[..8]
    ensures FromLE(header[8..12]) <= U32_MAX && FromLE(header[12..16]) <= U32_MAX
    ensures PrintHeader(FromLE(header[8..12]), FromLE(header[12..16])) == header
  {
    hide ToLE;
    Widths();
    ToFromLE(header[8..12]);
    ToFromLE(header[12..16]);
    assert PrintHeader(a.flags, a.reserved)[..8] == MAGIC + ToLE(VERSION_MAJOR, 2) + ToLE(VERSION_MINOR, 2);
    assert header == header[..8] + header[8..12] + header[12..16];
  }

  // Which bytes are ignored can be told from the canonical form.
  lemma SameIgnored(a: Archive, b: Archive, i: nat)
    requires ArchiveFits(a) && ArchiveFits(b) && Canonical(a) == Canonical(b) && Ignored(b, i)
    ensures Ignored(a, i)
  {
    hide PrintRecords, IgnoredByRecord, CanonicalRecords, RecordFits;
    if i >= HEADER_SIZE {
      var j: nat :| IgnoredByRecord(b.records, j, i - HEADER_SIZE);
      IgnoredCanonically(b.records, j, i - HEADER_SIZE);
      IgnoredCanonically(a.records, j, i - HEADER_SIZE);
    }
  }

  lemma IgnoredCanonically(rs: seq<Record>, j: nat, i: nat)
    requires AllFit(rs)
    ensures IgnoredByRecord(CanonicalRecords(rs), j, i) <==> IgnoredByRecord(rs, j, i)
  {
    hide PrintRecords, CanonicalRecords, RecordFits;
    if j < |rs| {
      CanonicalAt(rs, j);
      RecordsReprint(rs[..j]);
    }
  }

  lemma {:induction false} CanonicalAt(rs: seq<Record>, j: nat)
    requires j < |rs|
    ensures CanonicalRecords(rs)[..j] == CanonicalRecords(rs[..j])
    ensures CanonicalRecords(rs)[j] == CanonicalRecord(rs[j])
  {
    hide CanonicalRecord;
    var n := |rs| - 1;
    if j < n {
      CanonicalAt(rs[..n], j);
      assert rs[..n][..j] == rs[..j];
    }
  }

  // ------------------------------------------------------ accepted archives

  // Changing the bytes of an accepted archive in ignored places, and only
  // there, leaves an accepted archive with the same catalog.
  lemma IgnoredBytesFree(utf8: seq<byte> -> bool, data: seq<byte>, other: seq<byte>)
    requires Scanned(utf8, data).Some?
    requires DiffersInIgnored(ParseArchive(data).value, other)
    ensures Scanned(utf8, other) == Scanned(utf8, data)
  {
    hide CheckArchive, PrintArchive, ParseArchive, Canonical, DiffersInIgnored;
    var a := ParseArchive(data).value;
    ArchiveCodec(data, a);
    OnlyFreedom(a, other);
    ArchiveCodec(other, ParseArchive(other).value);
    CanonicalScansAlike(utf8, a, ParseArchive(other).value);
  }

  // In particular, reprinting an accepted archive canonically keeps its
  // length, changes ignored bytes only, and leaves the same catalog.
  lemma AcceptedReprints(utf8: seq<byte> -> bool, data: seq<byte>)
    requires Scanned(utf8, data).Some?
    ensures var a := ParseArchive(data).value;
      var again := PrintArchive(Canonical(a));
      && |again| == |data|
      && ParseArchive(again) == Some(Canonical(a))
      && Scanned(utf8, again) == Scanned(utf8, data)
      && forall i: nat :: i < |data| && data[i] != again[i] ==> Ignored(a, i)
  {
    hide CheckArchive, PrintArchive, ParseArchive, Canonical, Ignored;
    var a := ParseArchive(data).value;
    ArchiveCodec(data, a);
    ArchiveReprints(a);
    ArchiveCodec(PrintArchive(Canonical(a)), Canonical(a));
    IgnoredBytesFree(utf8, data, PrintArchive(Canonical(a)));
  }

  predicate RecordZeroed(r: Record) {
    (r.Chunk? ==> r.padding == [0, 0, 0]) && (r.Directory? ==> r.reserved == 0)
  }

  // Every ignored field has the value the format gives it.
  predicate Zeroed(a: Archive) {
    a.flags == 0 && a.reserved == 0 && forall i :: 0 <= i < |a.records| ==> RecordZeroed(a.records[i])
  }

  lemma ZeroedIsCanonical(a: Archive)
    ensures Zeroed(a) <==> a == Canonical(a)
  {
    hide CanonicalRecords;
    forall i | 0 <= i < |a.records|
      ensures RecordZeroed(a.records[i]) <==> a.records[i] == CanonicalRecords(a.records)[i]
    {
      CanonicalAt(a.records, i);
    }
  }

  // Archive bytes are the canonical print exactly when all ignored fields are
  // zero.
  lemma CanonicalBytes(data: seq<byte>)
    requires ParseArchive(data).Some?
    ensures var a := ParseArchive(data).value;
      data == PrintArchive(Canonical(a)) <==> Zeroed(a)
  {
    hide PrintArchive, ParseArchive, Canonical, Zeroed;
    var a := ParseArchive(data).value;
    ArchiveCodec(data, a);
    ArchiveReprints(a);
    ZeroedIsCanonical(a);
    if data == PrintArchive(Canonical(a)) {
      PrintInjective(a, Canonical(a));
    }
  }
}
