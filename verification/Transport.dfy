// The three ways in which an archive is kept: as a plain file, inside an RGXE
// stream under a password, or inside an RGXK stream behind an envelope. What
// is found in the archive does not depend on the way.
module Transport {
  import opened Bytes
  import opened FramedStream
  import opened Tiling
  import opened Format
  import opened Primitives
  import opened Catalog
  import opened Sources
  import opened FramedReader
  import KeyedStream
  import PrivateStream
  import Envelope
  import Sessions
  import Scan
  import opened Extract
  import opened FileTree
  import Reconstruct

  datatype Transport =
    | Plain
    | Private(derive: PrivateStream.Derive, password: string)
    | Recipient(hash: seq<byte> -> Digest, cipher: Cipher)

  // A framed stream inside a file: `full` full frames, then one of `last`
  // bytes.
  datatype Stream = Stream(layout: Layout, start: nat, full: nat, last: nat) {
    function Length(): nat {
      full * layout.frameSize + last
    }
  }

  ghost predicate HoldsStream(t: Transport, file: seq<byte>, s: Stream) {
    s.layout.WellFormed() &&
    match t
    case Plain => false
    case Private(derive, password) =>
      s.start == PrivateStream.HEADER_SIZE
      && exists h: PrivateStream.PrivateHeader ::
           && PrivateStream.StreamIn(file, derive, password, h, s.full, s.last)
           && s.layout == PrivateStream.LayoutOf(h, derive(password, h).value)
    case Recipient(hash, cipher) =>
      var e := Envelope.ParseEnvelope(hash, file);
      && e.Some? && s.start == e.value.payloadOffset + KeyedStream.HEADER_SIZE
      && exists h: KeyedStream.StreamHeader ::
           && KeyedStream.StreamAt(file, e.value.payloadOffset, cipher, e.value.envelopeHash, h, s.full, s.last)
           && s.layout == KeyedStream.LayoutOf(h, cipher)
  }

  lemma OneStream(t: Transport, file: seq<byte>, s: Stream, s': Stream)
    requires HoldsStream(t, file, s) && HoldsStream(t, file, s')
    ensures s == s'
  {
    hide Tiled, KeyedStream.DecodeHeader, KeyedStream.EncodeHeader, Envelope.ParseEnvelope;
    hide PrivateStream.DecodeHeader, PrivateStream.EncodeHeader;
    match t
    case Plain =>
    case Private(derive, password) =>
      var h: PrivateStream.PrivateHeader :| PrivateStream.StreamIn(file, derive, password, h, s.full, s.last)
        && s.layout == PrivateStream.LayoutOf(h, derive(password, h).value);
      var h': PrivateStream.PrivateHeader :| PrivateStream.StreamIn(file, derive, password, h', s'.full, s'.last)
        && s'.layout == PrivateStream.LayoutOf(h', derive(password, h').value);
      PrivateStream.HeaderCodec(PrivateStream.EncodeHeader(h), h);
      PrivateStream.HeaderCodec(PrivateStream.EncodeHeader(h), h');
      TilingUnique(file, s.layout, s.start, s.full, s.last, s'.full, s'.last);
    case Recipient(hash, cipher) =>
      var e := Envelope.ParseEnvelope(hash, file).value;
      var h: KeyedStream.StreamHeader :|
        KeyedStream.StreamAt(file, e.payloadOffset, cipher, e.envelopeHash, h, s.full, s.last)
        && s.layout == KeyedStream.LayoutOf(h, cipher);
      var h': KeyedStream.StreamHeader :|
        KeyedStream.StreamAt(file, e.payloadOffset, cipher, e.envelopeHash, h', s'.full, s'.last)
        && s'.layout == KeyedStream.LayoutOf(h', cipher);
      KeyedStream.HeaderCodec(KeyedStream.EncodeHeader(h), h);
      KeyedStream.HeaderCodec(KeyedStream.EncodeHeader(h), h');
      TilingUnique(file, s.layout, s.start, s.full, s.last, s'.full, s'.last);
  }

  // The inner archive of a file, and whether all of it authenticates.
  ghost function Inner(t: Transport, file: seq<byte>): Option<seq<byte>> {
    if t.Plain? then Some(file)
    else if exists s :: HoldsStream(t, file, s) then
      var s :| HoldsStream(t, file, s);
      Some(Plaintext(file, s.layout, s.start, s.Length()))
    else None
  }

  ghost predicate Authentic(t: Transport, file: seq<byte>) {
    t.Plain? || exists s :: HoldsStream(t, file, s) && Readable(file, s.layout, s.start, 0, s.Length())
  }

  lemma InnerOfStream(t: Transport, file: seq<byte>, s: Stream)
    requires HoldsStream(t, file, s)
    ensures Inner(t, file) == Some(Plaintext(file, s.layout, s.start, s.Length()))
    ensures Authentic(t, file) <==> Readable(file, s.layout, s.start, 0, s.Length())
  {
    assert !t.Plain?;
    hide HoldsStream, Plaintext, Readable;
    forall s' | HoldsStream(t, file, s')
      ensures s' == s
    {
      OneStream(t, file, s, s');
    }
  }

  // ----------------------------------------------------------------- opening

  // Opens the files that hold a stream of the right kind, and no others.
  method OpenSource(t: Transport, file: seq<byte>) returns (r: Result<Source>)
    requires |file| <= I64_MAX
    ensures r.Ok? <==> Inner(t, file).Some?
    ensures r.Ok? ==>
      && r.value.Valid() && fresh(r.value) && fresh(r.value.Repr())
      && Inner(t, file) == Some(r.value.data)
      && (r.value.authentic <==> Authentic(t, file))
      && r.value.limit == if t.Recipient? then |r.value.data| else U64_MAX
  {
    hide Plaintext, Tiled, Readable, Envelope.ParseEnvelope, KeyedStream.EncodeHeader, PrivateStream.EncodeHeader;
    match t
    case Plain =>
      r := PlainSource(file);
    case Private(derive, password) =>
      var stream := PrivateStream.Open(file, derive, password);
      if stream.Err? {
        assert forall s :: !HoldsStream(t, file, s);
        return Err(Authentication);
      }
      var reader := stream.value;
      r := Wrapped(t, file, reader);
    case Recipient(hash, cipher) =>
      var envelope := Envelope.ReadEnvelope(hash, file);
      if envelope.Err? {
        return Err(envelope.error);
      }
      var stream := KeyedStream.Open(file, envelope.value.payloadOffset, cipher, envelope.value.envelopeHash);
      if stream.Err? {
        assert forall s :: !HoldsStream(t, file, s);
        return Err(Authentication);
      }
      var reader := stream.value;
      r := Wrapped(t, file, reader);
  }

  method PlainSource(file: seq<byte>) returns (r: Result<Source>)
    requires |file| <= I64_MAX
    ensures r.Ok? && r.value.Valid() && fresh(r.value) && r.value.Repr() == {r.value}
    ensures r.value.data == file && r.value.authentic && r.value.limit == U64_MAX
  {
    var src := new Source.Plain(file);
    r := Ok(src);
  }

  ghost function StreamOf(reader: Reader): Stream
    reads reader
    requires reader.Valid()
  {
    Stream(reader.layout, reader.start, reader.finalSequence,
           reader.plaintextLen - reader.finalSequence * reader.layout.frameSize)
  }

  method Wrapped(t: Transport, file: seq<byte>, reader: Reader) returns (r: Result<Source>)
    requires reader.Valid() && reader.file == file
    requires HoldsStream(t, file, StreamOf(reader)) && reader.bounded == t.Recipient?
    ensures r.Ok? && r.value.Valid() && fresh(r.value) && r.value.Repr() == {r.value, reader}
    ensures Inner(t, file) == Some(r.value.data)
    ensures r.value.authentic <==> Authentic(t, file)
    ensures r.value.limit == if t.Recipient? then |r.value.data| else U64_MAX
  {
    hide Plaintext, Tiled, HoldsStream;
    InnerOfStream(t, file, StreamOf(reader));
    var src := new Source.Framed(reader);
    r := Ok(src);
  }

  // -------------------------------------------------------------- operations

  ghost function CatalogOf(t: Transport, utf8: seq<byte> -> bool, file: seq<byte>): Option<ArchiveCatalog> {
    if Inner(t, file).None? then None else Scanned(utf8, Inner(t, file).value)
  }

  method ScanFile(t: Transport, utf8: seq<byte> -> bool, file: seq<byte>) returns (r: Result<ArchiveCatalog>)
    requires |file| <= I64_MAX
    ensures r.Ok? ==> CatalogOf(t, utf8, file) == Some(r.value)
    ensures Authentic(t, file) ==> (r.Ok? <==> CatalogOf(t, utf8, file).Some?)
  {
    hide Inner, Authentic, Scanned, Reader.Valid, Reader.Contents, Reader.CanRead;
    var src := OpenSource(t, file);
    if src.Err? {
      return Err(src.error);
    }
    r := Scan.ScanArchive(src.value, utf8);
  }

  ghost predicate Verifies(t: Transport, p: Primitives, file: seq<byte>) {
    && CatalogOf(t, p.utf8, file).Some?
    && Reconstruct.AllIntact(p, Inner(t, file).value, CatalogOf(t, p.utf8, file).value)
  }

  method VerifyFile(t: Transport, p: Primitives, file: seq<byte>) returns (r: Result<Footer>)
    requires |file| <= I64_MAX
    ensures r.Ok? ==> Verifies(t, p, file) && r.value == CatalogOf(t, p.utf8, file).value.info
    ensures Authentic(t, file) ==> (r.Ok? <==> Verifies(t, p, file))
  {
    hide Inner, Authentic, Scanned, Reconstruct.AllIntact, Reader.Valid, Reader.Contents, Reader.CanRead;
    var src := OpenSource(t, file);
    if src.Err? {
      return Err(src.error);
    }
    r := Reconstruct.VerifyReader(src.value, p);
  }

  ghost function EntryOf(t: Transport, p: Primitives, file: seq<byte>, path: Path): Option<seq<byte>> {
    if Inner(t, file).None? then None else Reconstruct.Entry(p, Inner(t, file).value, path)
  }

  method ReadEntry(t: Transport, p: Primitives, file: seq<byte>, path: Path) returns (r: Result<seq<byte>>)
    requires |file| <= I64_MAX
    ensures r.Ok? ==> EntryOf(t, p, file, path) == Some(r.value)
    ensures Authentic(t, file) ==> (r.Ok? <==> EntryOf(t, p, file, path).Some?)
  {
    hide Inner, Authentic, Reconstruct.Entry, Reader.Valid, Reader.Contents, Reader.CanRead;
    var src := OpenSource(t, file);
    if src.Err? {
      return Err(src.error);
    }
    r := Reconstruct.ReadEntryReader(src.value, p, path);
  }

  // Extracts a file into a free place; a failure leaves nothing behind.
  method ExtractFile(t: Transport, p: Primitives, file: seq<byte>, tree: Tree, selected: Option<Path>)
    returns (r: Result<Footer>)
    requires |file| <= I64_MAX && (tree.RootExists() || tree.nodes == map[])
    modifies tree
    ensures r.Err? ==> tree.nodes == old(tree.nodes)
    ensures r.Ok? ==>
      && old(tree.nodes) == map[] && CatalogOf(t, p.utf8, file).Some?
      && var data, c := Inner(t, file).value, CatalogOf(t, p.utf8, file).value;
         var files := SelectFiles(selected, c.files);
         && r.value == c.info && Selectable(c, selected) && AllDecode(p, data, c, files)
         && Realises(tree.nodes, Places(SelectDirectories(selected, c.directories)), Placements(p, data, c, files))
    ensures Authentic(t, file) && old(tree.nodes) == map[] && tree.creatable && CatalogOf(t, p.utf8, file).Some? ==>
      var c := CatalogOf(t, p.utf8, file).value;
      (r.Ok? <==> Selectable(c, selected) && AllDecode(p, Inner(t, file).value, c, SelectFiles(selected, c.files)))
  {
    hide Inner, Authentic, Scanned, Selectable, Realises, Placements, Places, SelectFiles, SelectDirectories;
    hide Reader.Valid, Reader.Contents, Reader.CanRead, Reconstruct.FileData;
    var src := OpenSource(t, file);
    if src.Err? {
      return Err(src.error);
    }
    r := ExtractReader(src.value, p, tree, selected);
  }

  ghost predicate AllDecode(p: Primitives, data: seq<byte>, c: ArchiveCatalog, files: seq<FileRecord>) {
    forall i :: 0 <= i < |files| ==> Reconstruct.FileData(p, data, c.chunks, files[i]).Some?
  }

  // ------------------------------------------------------------ independence

  ghost predicate PrivateFile(derive: PrivateStream.Derive, password: string, file: seq<byte>, data: seq<byte>,
                              h: PrivateStream.PrivateHeader)
  {
    && h.Acceptable() && |data| < U64_MAX * h.frameSize
    && derive(password, h).Some? && derive(password, h).value.Lawful()
    && file == StreamBytes(PrivateStream.LayoutOf(h, derive(password, h).value), data)
  }

  ghost predicate RecipientFile(hash: seq<byte> -> Digest, cipher: Cipher, file: seq<byte>, data: seq<byte>,
                                slots: seq<Envelope.RecipientSlot>, password: Option<Envelope.PasswordSlot>,
                                h: KeyedStream.StreamHeader)
  {
    var envelope := Envelope.EnvelopeBytes(slots, password);
    && 1 <= |slots| <= Envelope.MAX_RECIPIENTS && Envelope.SlotsFit(slots, password)
    && h.Acceptable() && |data| < U64_MAX * h.frameSize && h.envelopeHash == hash(envelope)
    && file == envelope + StreamBytes(KeyedStream.LayoutOf(h, cipher), data)
  }

  // The file is what writing `data` in this way leaves.
  ghost predicate Carries(t: Transport, file: seq<byte>, data: seq<byte>) {
    match t
    case Plain => file == data
    case Private(derive, password) => password != "" && exists h :: PrivateFile(derive, password, file, data, h)
    case Recipient(hash, cipher) =>
      cipher.Lawful() && exists slots, password, h :: RecipientFile(hash, cipher, file, data, slots, password, h)
  }

  // What was written is what is found, and all of it authenticates.
  lemma CarriedIsInner(t: Transport, file: seq<byte>, data: seq<byte>)
    requires Carries(t, file, data)
    ensures Inner(t, file) == Some(data) && Authentic(t, file)
  {
    hide StreamBytes, Plaintext, Readable, Tiled, Envelope.EnvelopeBytes, Envelope.ParseEnvelope;
    hide Inner, Authentic, PrivateStream.EncodeHeader, KeyedStream.EncodeHeader;
    match t
    case Plain =>
      PlainInner(t, file);
    case Private(derive, password) =>
      var h :| PrivateFile(derive, password, file, data, h);
      Sessions.PrivateWritten(derive, password, h, data);
      var k: nat, last: nat :| PrivateStream.StreamIn(file, derive, password, h, k, last);
      var s := Stream(PrivateStream.LayoutOf(h, derive(password, h).value), PrivateStream.HEADER_SIZE, k, last);
      assert HoldsStream(t, file, s);
      InnerOfStream(t, file, s);
    case Recipient(hash, cipher) =>
      var slots, password, h :| RecipientFile(hash, cipher, file, data, slots, password, h);
      var s := RecipientStream(hash, cipher, file, data, slots, password, h);
      InnerOfStream(t, file, s);
  }

  lemma PlainInner(t: Transport, file: seq<byte>)
    requires t.Plain?
    ensures Inner(t, file) == Some(file) && Authentic(t, file)
  {
  }

  lemma RecipientStream(hash: seq<byte> -> Digest, cipher: Cipher, file: seq<byte>, data: seq<byte>,
                        slots: seq<Envelope.RecipientSlot>, password: Option<Envelope.PasswordSlot>,
                        h: KeyedStream.StreamHeader)
    returns (s: Stream)
    requires cipher.Lawful() && RecipientFile(hash, cipher, file, data, slots, password, h)
    ensures HoldsStream(Recipient(hash, cipher), file, s)
    ensures Plaintext(file, s.layout, s.start, s.Length()) == data
    ensures Readable(file, s.layout, s.start, 0, s.Length())
  {
    hide StreamBytes, Plaintext, Readable, Tiled, Envelope.EnvelopeBytes, Envelope.ParseEnvelope;
    hide KeyedStream.EncodeHeader;
    var envelope := Envelope.EnvelopeBytes(slots, password);
    var l := KeyedStream.LayoutOf(h, cipher);
    StreamStarts(h, cipher, data);
    Envelope.EnvelopeRoundTrip(hash, slots, password, StreamBytes(l, data));
    Sessions.KeyedWritten(envelope, cipher, h, data);
    var k: nat, last: nat :| KeyedStream.StreamAt(file, |envelope|, cipher, h.envelopeHash, h, k, last);
    s := Stream(l, |envelope| + KeyedStream.HEADER_SIZE, k, last);
  }

  lemma StreamStarts(h: KeyedStream.StreamHeader, cipher: Cipher, data: seq<byte>)
    requires h.Acceptable()
    ensures var b := StreamBytes(KeyedStream.LayoutOf(h, cipher), data);
      |b| > 4 && b[..4] == KeyedStream.KEYED_MAGIC
  {
    hide SealAll, SealFrame, Blocks, Remainder, ToLE;
    var l := KeyedStream.LayoutOf(h, cipher);
    var blocks := Blocks(l.frameSize, data);
    var tail := SealAll(l, blocks) + SealFrame(l, |blocks|, Remainder(l.frameSize, data), true);
    assert StreamBytes(l, data) == l.header + tail;
    assert l.header[..4] == KeyedStream.KEYED_MAGIC;
  }

  // The same archive kept in two ways has one catalog, verifies alike, and
  // reads alike.
  lemma TransportIndependent(p: Primitives, data: seq<byte>, t: Transport, file: seq<byte>, t': Transport, file': seq<byte>)
    requires Carries(t, file, data) && Carries(t', file', data)
    ensures CatalogOf(t, p.utf8, file) == CatalogOf(t', p.utf8, file') == Scanned(p.utf8, data)
    ensures Verifies(t, p, file) <==> Verifies(t', p, file')
    ensures forall path :: EntryOf(t, p, file, path) == EntryOf(t', p, file', path) == Reconstruct.Entry(p, data, path)
  {
    hide Carries, Inner, Authentic, Scanned, Reconstruct.Entry, Reconstruct.AllIntact;
    CarriedIsInner(t, file, data);
    CarriedIsInner(t', file', data);
  }

  // The scan answers alike on the three, though the seeks it issues obey
  // different limits.
  method ScanThreeWays(utf8: seq<byte> -> bool, data: seq<byte>, private: Transport, privateFile: seq<byte>,
                       recipient: Transport, recipientFile: seq<byte>)
    returns (a: Result<ArchiveCatalog>, b: Result<ArchiveCatalog>, c: Result<ArchiveCatalog>)
    requires private.Private? && Carries(private, privateFile, data) && |privateFile| <= I64_MAX
    requires recipient.Recipient? && Carries(recipient, recipientFile, data) && |recipientFile| <= I64_MAX
    requires |data| <= I64_MAX
    ensures (a.Ok? <==> Scanned(utf8, data).Some?) && (a.Ok? <==> b.Ok?) && (a.Ok? <==> c.Ok?)
    ensures a.Ok? ==> a.value == b.value == c.value
  {
    hide Carries, Inner, Authentic, Scanned;
    PlainInner(Plain, data);
    CarriedIsInner(private, privateFile, data);
    CarriedIsInner(recipient, recipientFile, data);
    a := ScanFile(Plain, utf8, data);
    b := ScanFile(private, utf8, privateFile);
    c := ScanFile(recipient, utf8, recipientFile);
  }
}
