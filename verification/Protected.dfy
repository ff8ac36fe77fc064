// Packing behind encryption, and the round trip through it.
module Protected {
  import opened Bytes
  import opened Sequences
  import opened FramedStream
  import opened Format
  import opened Primitives
  import opened Catalog
  import opened Pack
  import opened RoundTrip
  import opened ReadBack
  import opened Transport
  import FramedWriter
  import KeyedStream
  import PrivateStream
  import Envelope
  import Sessions
  import Reconstruct
  import opened Extract
  import opened FileTree
  import opened Paths

  // How far one stream under the default frame size can count its frames.
  predicate FitsStream(data: seq<byte>) {
    |data| < U64_MAX * DEFAULT_FRAME_SIZE
  }

  // Writes an archive through a framed writer and closes it.
  method WriteThrough(w: FramedWriter.Writer, data: seq<byte>) returns (r: Result<()>)
    requires w.Valid() && !w.finished && w.written == []
    modifies w
    ensures r.Ok? <==> |data| < U64_MAX * w.layout.frameSize
    ensures r.Ok? ==> w.out == w.prefix + StreamBytes(w.layout, data)
  {
    hide StreamBytes;
    FlattenSnoc([], data);
    FlattenNothing();
    assert [data] == [] + [data] && [] + data == data;
    r := Sessions.WritePieces(w, [data]);
  }

  // Packs into an RGXE file.
  method PackPrivate(p: Primitives, level: nat, items: seq<Item>, derive: PrivateStream.Derive, password: string,
                     salt: seq<byte>, noncePrefix: seq<byte>)
    returns (r: Result<(seq<byte>, Footer)>)
    requires |salt| == PrivateStream.SALT_SIZE && |noncePrefix| == NONCE_PREFIX_SIZE
    requires var cipher := derive(password, PrivateStream.WriterHeader(salt, noncePrefix));
      cipher.Some? ==> cipher.value.Lawful()
    ensures r.Ok? <==>
      && password != "" && derive(password, PrivateStream.WriterHeader(salt, noncePrefix)).Some?
      && Packed(p, level, items).Some? && FitsStream(PrintArchive(Packed(p, level, items).value))
    ensures r.Ok? ==>
      && Carries(Private(derive, password), r.value.0, PrintArchive(Packed(p, level, items).value))
      && r.value.1 == Packed(p, level, items).value.footer
  {
    hide StreamBytes, PrintArchive, Packed;
    if password == "" {
      return Err(InvalidInput);
    }
    var made := PrivateStream.New(derive, password, salt, noncePrefix);
    if made.Err? {
      return Err(made.error);
    }
    var w := made.value;
    var packed := PackToWriter(p, level, items);
    if packed.Err? {
      return Err(packed.error);
    }
    var wrote := WriteThrough(w, packed.value.0);
    if wrote.Err? {
      return Err(wrote.error);
    }
    assert w.out == StreamBytes(w.layout, packed.value.0);
    ghost var h := PrivateStream.WriterHeader(salt, noncePrefix);
    assert PrivateFile(derive, password, w.out, packed.value.0, h);
    r := Ok((w.out, packed.value.1));
  }

  // Packs into an RGXK stream behind an envelope. `slots` and `passwordSlot`
  // are the wrapped keys.
  method PackRecipient(p: Primitives, level: nat, items: seq<Item>, hash: seq<byte> -> Digest, cipher: Cipher,
                       slots: seq<Envelope.RecipientSlot>, passwordSlot: Option<Envelope.PasswordSlot>,
                       noncePrefix: seq<byte>)
    returns (r: Result<(seq<byte>, Footer)>)
    requires cipher.Lawful() && Envelope.SlotsFit(slots, passwordSlot) && |noncePrefix| == NONCE_PREFIX_SIZE
    ensures r.Ok? <==>
      && 1 <= |slots| <= Envelope.MAX_RECIPIENTS
      && Packed(p, level, items).Some? && FitsStream(PrintArchive(Packed(p, level, items).value))
    ensures r.Ok? ==>
      && Carries(Recipient(hash, cipher), r.value.0, PrintArchive(Packed(p, level, items).value))
      && r.value.1 == Packed(p, level, items).value.footer
  {
    hide StreamBytes, PrintArchive, Packed, Envelope.EnvelopeBytes;
    if |slots| == 0 || |slots| > Envelope.MAX_RECIPIENTS {
      return Err(InvalidInput);
    }
    var envelope := Envelope.EncodeEnvelope(slots, passwordSlot);
    var envelopeHash := hash(envelope.value);
    var w := KeyedStream.New(envelope.value, cipher, envelopeHash, noncePrefix);
    var packed := PackToWriter(p, level, items);
    if packed.Err? {
      return Err(packed.error);
    }
    var wrote := WriteThrough(w, packed.value.0);
    if wrote.Err? {
      return Err(wrote.error);
    }
    ghost var h := KeyedStream.StreamHeader(DEFAULT_FRAME_SIZE, noncePrefix, envelopeHash);
    assert RecipientFile(hash, cipher, w.out, packed.value.0, slots, passwordSlot, h);
    r := Ok((w.out, packed.value.1));
  }

  // Pack, protect, open, scan and read: in each of the three ways the catalog
  // lists the packed entries, the archive verifies, and every file reads back
  // as it was.
  lemma ProtectedReadsBack(p: Primitives, level: nat, items: seq<Item>, t: Transport, file: seq<byte>)
    requires p.Lawful() && Packed(p, level, items).Some?
    requires p.InjectiveOn(RunChunks(p, items))
    requires forall i :: 0 <= i < |items| ==> PlatformItem(items[i])
    requires Carries(t, file, PrintArchive(Packed(p, level, items).value))
    ensures Authentic(t, file)
    ensures CatalogOf(t, p.utf8, file).Some? <==> PathsAccepted(p, level, items)
    ensures PathsAccepted(p, level, items) ==>
      var c := CatalogOf(t, p.utf8, file).value;
      && c.files == ListingOf(p, level, items).files && c.directories == ListingOf(p, level, items).directories
      && c.info == Packed(p, level, items).value.footer
      && Verifies(t, p, file)
      && |c.files| == |ContentsOf(items)|
      && forall i :: 0 <= i < |c.files| ==> EntryOf(t, p, file, c.files[i].path) == Some(ContentsOf(items)[i])
  {
    hide PackItems, Scanned, PathsAccepted, RunChunks, Reconstruct.Entry, Reconstruct.AllIntact, PrintArchive, Carries, Inner;
    CarriedIsInner(t, file, PrintArchive(Packed(p, level, items).value));
    PackedScans(p, level, items);
    if PathsAccepted(p, level, items) {
      PackedReadsBack(p, level, items);
    }
  }

  // The files a run packs, as they should lie in an extracted tree.
  ghost function PackedPlaces(p: Primitives, level: nat, items: seq<Item>): set<Placed>
    requires PackItems(p, level, items).Some?
    requires |ContentsOf(items)| == |ListingOf(p, level, items).files|
  {
    var files := ListingOf(p, level, items).files;
    set i | 0 <= i < |files| :: Placed(Parts(files[i].path), ContentsOf(items)[i])
  }

  // Pack, protect and extract: the tree holds the packed files with their
  // contents, the packed directories, their ancestors and nothing else.
  method ExtractPacked(p: Primitives, level: nat, items: seq<Item>, t: Transport, file: seq<byte>, tree: Tree)
    returns (r: Result<Footer>)
    requires p.Lawful() && Packed(p, level, items).Some?
    requires p.InjectiveOn(RunChunks(p, items))
    requires forall i :: 0 <= i < |items| ==> PlatformItem(items[i])
    requires PathsAccepted(p, level, items)
    requires Carries(t, file, PrintArchive(Packed(p, level, items).value)) && |file| <= I64_MAX
    requires tree.nodes == map[] && tree.creatable
    modifies tree
    ensures r == Ok(Packed(p, level, items).value.footer)
    ensures |ContentsOf(items)| == |ListingOf(p, level, items).files|
    ensures Realises(tree.nodes, Places(ListingOf(p, level, items).directories), PackedPlaces(p, level, items))
  {
    hide PackItems, PathsAccepted, RunChunks, PrintArchive, Carries, Inner, Realises, Parts, Placements, Places;
    hide Scanned, Reconstruct.FileData, PackedPlaces;
    ProtectedReadsBack(p, level, items, t, file);
    PackedPlacements(p, level, items);
    SelectAllDirectories(ListingOf(p, level, items).directories);
    CarriedIsInner(t, file, PrintArchive(Packed(p, level, items).value));
    r := ExtractFile(t, p, file, tree, None);
  }

  lemma {:induction false} SelectAllDirectories(directories: seq<Path>)
    ensures SelectDirectories(None, directories) == directories
  {
    if directories != [] {
      SelectAllDirectories(directories[..|directories| - 1]);
    }
  }

  lemma PackedPlacements(p: Primitives, level: nat, items: seq<Item>)
    requires p.Lawful() && Packed(p, level, items).Some?
    requires p.InjectiveOn(RunChunks(p, items))
    requires forall i :: 0 <= i < |items| ==> PlatformItem(items[i])
    requires PathsAccepted(p, level, items)
    ensures var data := PrintArchive(Packed(p, level, items).value);
      var c := Scanned(p.utf8, data);
      && c.Some? && |ContentsOf(items)| == |c.value.files|
      && c.value.files == ListingOf(p, level, items).files
      && SelectFiles(None, c.value.files) == c.value.files && Selectable(c.value, None)
      && AllDecode(p, data, c.value, c.value.files)
      && Placements(p, data, c.value, c.value.files) == PackedPlaces(p, level, items)
  {
    hide PackItems, PathsAccepted, RunChunks, PrintArchive, Scanned, Reconstruct.FileData, Reconstruct.Entry, Parts;
    PackedScans(p, level, items);
    PackedReadsBack(p, level, items);
    var data := PrintArchive(Packed(p, level, items).value);
    var c := Scanned(p.utf8, data).value;
    SelectAll(c.files);
    forall i: nat | i < |c.files|
      ensures Reconstruct.FileData(p, data, c.chunks, c.files[i]) == Some(ContentsOf(items)[i])
    {
      Reconstruct.EntryOfFile(p, data, i);
    }
    assert forall i :: 0 <= i < |c.files| ==> ContentOf(p, data, c, c.files[i]) == ContentsOf(items)[i];
  }
}
