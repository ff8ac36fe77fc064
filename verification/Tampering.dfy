// The same for whole files: what opens to the last frame under a key is the
// stream written under it, and an envelope cannot be exchanged.
module Tampering {
  import opened Bytes
  import opened FramedStream
  import opened Tiling
  import opened Format
  import opened Authenticity
  import opened Transport
  import KeyedStream
  import PrivateStream
  import Envelope
  import Sessions

  // An RGXK stream all of whose frames open is the one written, header
  // included.
  lemma KeyedIsWhole(file: seq<byte>, offset: nat, cipher: Cipher, envelopeHash: seq<byte>, found: KeyedStream.StreamHeader,
                     k: nat, plain: nat, h: KeyedStream.StreamHeader, data: seq<byte>)
    requires cipher.Lawful() && h.Acceptable() && FinalNumber(KeyedStream.LayoutOf(h, cipher), data) <= U64_MAX
    requires KeyedStream.StreamAt(file, offset, cipher, envelopeHash, found, k, plain)
    requires var m, start := KeyedStream.LayoutOf(found, cipher), offset + KeyedStream.HEADER_SIZE;
      && Genuine(file, m, start, k, plain, KeyedStream.LayoutOf(h, cipher), data)
      && AllOpen(file, m, start, k)
    ensures found == h && envelopeHash == h.envelopeHash
    ensures offset <= |file| && file[offset..] == StreamBytes(KeyedStream.LayoutOf(h, cipher), data)
  {
    hide Tiled, FrameText, Genuine, StreamBytes, KeyedStream.EncodeHeader, KeyedStream.DecodeHeader, FinalNumber;
    var l, m, start := KeyedStream.LayoutOf(h, cipher), KeyedStream.LayoutOf(found, cipher), offset + KeyedStream.HEADER_SIZE;
    FrameGenuine(file, m, start, k, plain, l, data, k);
    KeyedStream.HeaderCodec(l.header, h);
    KeyedStream.HeaderCodec(l.header, found);
    TiledStarts(file, l, start, k, plain);
    AllOpenIsWhole(file, l, start, k, plain, data);
    HeaderThenRest(file, offset, l.header);
  }

  lemma TiledStarts(file: seq<byte>, l: Layout, start: nat, k: nat, plain: nat)
    requires l.WellFormed() && Tiled(file, l, start, k, plain)
    ensures start <= |file|
  {
  }

  lemma HeaderThenRest(file: seq<byte>, offset: nat, header: seq<byte>)
    requires offset + |header| <= |file| && Slice(file, offset, |header|) == header
    ensures file[offset..] == header + file[offset + |header|..]
  {
  }

  // An RGXE file all of whose frames open is the one written.
  lemma PrivateIsWhole(file: seq<byte>, derive: PrivateStream.Derive, password: string, found: PrivateStream.PrivateHeader,
                       k: nat, plain: nat, h: PrivateStream.PrivateHeader, data: seq<byte>)
    requires h.Acceptable() && derive(password, h).Some? && derive(password, h).value.Lawful()
    requires FinalNumber(PrivateStream.LayoutOf(h, derive(password, h).value), data) <= U64_MAX
    requires PrivateStream.StreamIn(file, derive, password, found, k, plain)
    requires var m, start := PrivateStream.LayoutOf(found, derive(password, found).value), PrivateStream.HEADER_SIZE;
      && Genuine(file, m, start, k, plain, PrivateStream.LayoutOf(h, derive(password, h).value), data)
      && AllOpen(file, m, start, k)
    ensures found == h && file == StreamBytes(PrivateStream.LayoutOf(h, derive(password, h).value), data)
  {
    hide Tiled, FrameText, Genuine, StreamBytes, PrivateStream.EncodeHeader, PrivateStream.DecodeHeader, FinalNumber;
    var l, m := PrivateStream.LayoutOf(h, derive(password, h).value), PrivateStream.LayoutOf(found, derive(password, found).value);
    var start := PrivateStream.HEADER_SIZE;
    FrameGenuine(file, m, start, k, plain, l, data, k);
    PrivateStream.HeaderCodec(l.header, h);
    PrivateStream.HeaderCodec(l.header, found);
    TiledStarts(file, l, start, k, plain);
    AllOpenIsWhole(file, l, start, k, plain, data);
    HeaderThenRest(file, 0, l.header);
    assert file[0..] == file;
  }

  // A recipient file all of whose frames open is an envelope with the hash of
  // the one written, followed by the stream written.
  lemma RecipientIsWhole(hash: seq<byte> -> Digest, cipher: Cipher, file: seq<byte>, s: Stream,
                         slots: seq<Envelope.RecipientSlot>, password: Option<Envelope.PasswordSlot>,
                         h: KeyedStream.StreamHeader, data: seq<byte>)
    requires cipher.Lawful() && h.Acceptable() && FinalNumber(KeyedStream.LayoutOf(h, cipher), data) <= U64_MAX
    requires h.envelopeHash == hash(Envelope.EnvelopeBytes(slots, password))
    requires HoldsStream(Recipient(hash, cipher), file, s)
    requires Genuine(file, s.layout, s.start, s.full, s.last, KeyedStream.LayoutOf(h, cipher), data)
    requires AllOpen(file, s.layout, s.start, s.full)
    ensures var e := Envelope.ParseEnvelope(hash, file).value;
      var envelope := Envelope.EnvelopeBytes(e.recipients, e.password);
      && file == envelope + StreamBytes(KeyedStream.LayoutOf(h, cipher), data)
      && hash(envelope) == hash(Envelope.EnvelopeBytes(slots, password))
  {
    hide Tiled, FrameText, Genuine, StreamBytes, KeyedStream.EncodeHeader, KeyedStream.DecodeHeader, FinalNumber;
    hide Envelope.ParseEnvelope, Envelope.EnvelopeBytes;
    var e := Envelope.ParseEnvelope(hash, file).value;
    var found: KeyedStream.StreamHeader :|
      KeyedStream.StreamAt(file, e.payloadOffset, cipher, e.envelopeHash, found, s.full, s.last)
      && s.layout == KeyedStream.LayoutOf(found, cipher);
    KeyedIsWhole(file, e.payloadOffset, cipher, e.envelopeHash, found, s.full, s.last, h, data);
    Envelope.EnvelopeCodec(hash, file, e);
    var n := e.payloadOffset;
    assert file == file[0..n] + file[n..];
  }

  // The payload behind any envelope opens exactly when that envelope has the
  // hash in the payload's header.
  lemma EnvelopeBound(hash: seq<byte> -> Digest, cipher: Cipher, slots: seq<Envelope.RecipientSlot>,
                      password: Option<Envelope.PasswordSlot>, h: KeyedStream.StreamHeader, data: seq<byte>)
    requires cipher.Lawful() && h.Acceptable() && |data| < U64_MAX * h.frameSize
    requires 1 <= |slots| <= Envelope.MAX_RECIPIENTS && Envelope.SlotsFit(slots, password)
    ensures var envelope := Envelope.EnvelopeBytes(slots, password);
      Inner(Recipient(hash, cipher), envelope + StreamBytes(KeyedStream.LayoutOf(h, cipher), data)).Some?
      <==> h.envelopeHash == hash(envelope)
  {
    hide Tiled, StreamBytes, Plaintext, KeyedStream.EncodeHeader, KeyedStream.DecodeHeader;
    hide Envelope.ParseEnvelope, Envelope.EnvelopeBytes, Readable;
    var l, envelope := KeyedStream.LayoutOf(h, cipher), Envelope.EnvelopeBytes(slots, password);
    var t, file := Recipient(hash, cipher), envelope + StreamBytes(l, data);
    if h.envelopeHash == hash(envelope) {
      assert RecipientFile(hash, cipher, file, data, slots, password, h);
      CarriedIsInner(t, file, data);
    }
    if Inner(t, file).Some? {
      var s :| HoldsStream(t, file, s);
      StreamStarts(h, cipher, data);
      Envelope.EnvelopeRoundTrip(hash, slots, password, StreamBytes(l, data));
      var found: KeyedStream.StreamHeader :|
        KeyedStream.StreamAt(file, |envelope|, cipher, hash(envelope), found, s.full, s.last);
      Sessions.HeaderInPlace(envelope, l, data);
      KeyedStream.HeaderCodec(l.header, h);
      KeyedStream.HeaderCodec(l.header, found);
    }
  }
}
