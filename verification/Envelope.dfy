// The RGXR envelope: recipient slots and an optional password slot in front
// of an RGXK payload.
module Envelope {
  import opened Bytes
  import opened Sequences
  import opened Format
  import opened FormatCodec
  import KeyedStream

  const RECIPIENT_MAGIC: seq<byte> := [0x52, 0x47, 0x58, 0x52] // "RGXR"
  const RECIPIENT_VERSION: nat := 2
  const FLAG_PASSWORD_FALLBACK: nat := 1
  const PREFIX_SIZE: nat := 16
  const RECIPIENT_SLOT_SIZE: nat := 120
  const PASSWORD_SLOT_SIZE: nat := 100
  const MAX_RECIPIENTS: nat := 64

  datatype RecipientSlot = RecipientSlot(
    keyId: seq<byte>, ephemeralPublic: seq<byte>, nonce: seq<byte>, wrappedKey: seq<byte>)
  {
    predicate Fits() {
      |keyId| == 16 && |ephemeralPublic| == 32 && |nonce| == 24 && |wrappedKey| == 48
    }
  }

  datatype PasswordSlot = PasswordSlot(
    memoryKib: nat, iterations: nat, lanes: nat, salt: seq<byte>, nonce: seq<byte>, wrappedKey: seq<byte>)
  {
    predicate Fits() {
      && memoryKib <= U32_MAX && iterations <= U32_MAX && lanes <= U32_MAX
      && |salt| == 16 && |nonce| == 24 && |wrappedKey| == 48
    }
  }

  datatype RecipientEnvelope = RecipientEnvelope(
    recipients: seq<RecipientSlot>, password: Option<PasswordSlot>, payloadOffset: nat, envelopeHash: Digest)

  // ---------------------------------------------------------------- printing

  function SlotBytes(s: RecipientSlot): seq<byte> {
    s.keyId + s.ephemeralPublic + s.nonce + s.wrappedKey
  }

  function SlotsBytes(slots: seq<RecipientSlot>): seq<byte> {
    if slots == [] then [] else SlotsBytes(slots[..|slots| - 1]) + SlotBytes(slots[|slots| - 1])
  }

  function PasswordBytes(s: PasswordSlot): seq<byte> {
    ToLE(s.memoryKib, 4) + ToLE(s.iterations, 4) + ToLE(s.lanes, 4) + s.salt + s.nonce + s.wrappedKey
  }

  function OptionalPasswordBytes(password: Option<PasswordSlot>): seq<byte> {
    if password.Some? then PasswordBytes(password.value) else []
  }

  function HeaderLength(recipientCount: nat, hasPassword: bool): nat {
    PREFIX_SIZE + recipientCount * RECIPIENT_SLOT_SIZE + (if hasPassword then PASSWORD_SLOT_SIZE else 0)
  }

  function PrefixBytes(recipientCount: nat, hasPassword: bool): (b: seq<byte>)
    ensures |b| == PREFIX_SIZE
  {
    RECIPIENT_MAGIC + ToLE(RECIPIENT_VERSION, 2) + ToLE(if hasPassword then FLAG_PASSWORD_FALLBACK else 0, 2)
      + ToLE(recipientCount, 2) + [0, 0] + ToLE(HeaderLength(recipientCount, hasPassword), 4)
  }

  function EnvelopeBytes(recipients: seq<RecipientSlot>, password: Option<PasswordSlot>): seq<byte> {
    PrefixBytes(|recipients|, password.Some?) + SlotsBytes(recipients) + OptionalPasswordBytes(password)
  }

  predicate SlotsFit(recipients: seq<RecipientSlot>, password: Option<PasswordSlot>) {
    && (forall i :: 0 <= i < |recipients| ==> recipients[i].Fits())
    && (password.Some? ==> password.value.Fits())
  }

  // Builds the envelope slot by slot. Nothing but the 16-bit count can fail.
  method EncodeEnvelope(recipients: seq<RecipientSlot>, password: Option<PasswordSlot>) returns (r: Result<seq<byte>>)
    ensures r.Ok? <==> |recipients| <= U16_MAX
    ensures r.Ok? ==> r.value == EnvelopeBytes(recipients, password)
  {
    hide ToLE;
    var headerLen := HeaderLength(|recipients|, password.Some?);
    if headerLen > U32_MAX {
      return Err(Overflow);
    }
    if |recipients| > U16_MAX {
      return Err(Overflow);
    }
    var output := PrefixBytes(|recipients|, password.Some?);
    ghost var prefix := output;
    var i := 0;
    assert recipients[..0] == [];
    while i < |recipients|
      invariant i <= |recipients| && output == prefix + SlotsBytes(recipients[..i])
    {
      output := output + recipients[i].keyId;
      output := output + recipients[i].ephemeralPublic;
      output := output + recipients[i].nonce;
      output := output + recipients[i].wrappedKey;
      SlotsSnoc(recipients, i);
      i := i + 1;
    }
    assert recipients[..i] == recipients;
    if password.Some? {
      output := output + PasswordBytes(password.value);
    }
    r := Ok(output);
  }

  lemma SlotsSnoc(slots: seq<RecipientSlot>, i: nat)
    requires i < |slots|
    ensures SlotsBytes(slots[..i + 1]) == SlotsBytes(slots[..i]) + SlotBytes(slots[i])
  {
    assert slots[..i + 1][..i] == slots[..i];
  }

  // ----------------------------------------------------------------- parsing

  function SlotAt(b: seq<byte>, at: nat): RecipientSlot
    requires at + RECIPIENT_SLOT_SIZE <= |b|
  {
    RecipientSlot(b[at..at + 16], b[at + 16..at + 48], b[at + 48..at + 72], b[at + 72..at + 120])
  }

  function SlotsAt(b: seq<byte>, at: nat, count: nat): (slots: seq<RecipientSlot>)
    requires at + RECIPIENT_SLOT_SIZE * count <= |b|
    ensures |slots| == count
  {
    if count == 0 then []
    else SlotsAt(b, at, count - 1) + [SlotAt(b, at + RECIPIENT_SLOT_SIZE * (count - 1))]
  }

  function PasswordAt(b: seq<byte>, at: nat): PasswordSlot
    requires at + PASSWORD_SLOT_SIZE <= |b|
  {
    PasswordSlot(U32At(b, at), U32At(b, at + 4), U32At(b, at + 8),
                 b[at + 12..at + 28], b[at + 28..at + 52], b[at + 52..at + 100])
  }

  // The number of recipients and whether a password slot follows, for a
  // prefix whose every field is acceptable.
  function PrefixAt(b: seq<byte>): Option<(nat, bool)>
    requires |b| >= PREFIX_SIZE
  {
    var flags, count := U16At(b, 6), U16At(b, 8);
    if b[0..4] != RECIPIENT_MAGIC || U16At(b, 4) != RECIPIENT_VERSION then None
    else if flags > FLAG_PASSWORD_FALLBACK then None
    else if count == 0 || count > MAX_RECIPIENTS then None
    else if b[10..12] != [0, 0] then None
    else if U32At(b, 12) != HeaderLength(count, flags == FLAG_PASSWORD_FALLBACK) then None
    else Some((count, flags == FLAG_PASSWORD_FALLBACK))
  }

  function ParseEnvelope(hash: seq<byte> -> Digest, file: seq<byte>): Option<RecipientEnvelope> {
    if |file| < PREFIX_SIZE || PrefixAt(file).None? then None
    else
      var (count, hasPassword) := PrefixAt(file).value;
      var n := HeaderLength(count, hasPassword);
      if |file| <= n + 4 || file[n..n + 4] != KeyedStream.KEYED_MAGIC then None
      else
        var password := if hasPassword then Some(PasswordAt(file, n - PASSWORD_SLOT_SIZE)) else None;
        Some(RecipientEnvelope(SlotsAt(file, PREFIX_SIZE, count), password, n, hash(file[..n])))
  }

  // ------------------------------------------------------------------- codec

  lemma SlotCodec(b: seq<byte>, at: nat, s: RecipientSlot)
    requires at + RECIPIENT_SLOT_SIZE <= |b|
    ensures SlotAt(b, at) == s <==> s.Fits() && Holds(b, at, SlotBytes(s))
  {
    if SlotAt(b, at) == s {
      Adjacent(b, at, at + 16, at + 48);
      Adjacent(b, at, at + 48, at + 72);
      Adjacent(b, at, at + 72, at + 120);
    }
    if s.Fits() && Holds(b, at, SlotBytes(s)) {
      var c := SlotBytes(s);
      HoldsPart(b, at, c, 0, 16);
      HoldsPart(b, at, c, 16, 48);
      HoldsPart(b, at, c, 48, 72);
      HoldsPart(b, at, c, 72, 120);
      assert c[0..16] == s.keyId && c[16..48] == s.ephemeralPublic;
      assert c[48..72] == s.nonce && c[72..120] == s.wrappedKey;
    }
  }

  lemma {:induction false} SlotsLength(slots: seq<RecipientSlot>)
    requires forall i :: 0 <= i < |slots| ==> slots[i].Fits()
    ensures |SlotsBytes(slots)| == RECIPIENT_SLOT_SIZE * |slots|
  {
    if slots != [] {
      SlotsLength(slots[..|slots| - 1]);
    }
  }

  predicate AllSlotsFit(slots: seq<RecipientSlot>) {
    forall i :: 0 <= i < |slots| ==> slots[i].Fits()
  }

  lemma {:induction false} SlotsCodec(b: seq<byte>, at: nat, slots: seq<RecipientSlot>)
    requires at + RECIPIENT_SLOT_SIZE * |slots| <= |b|
    ensures SlotsAt(b, at, |slots|) == slots <==> AllSlotsFit(slots) && Holds(b, at, SlotsBytes(slots))
  {
    hide SlotAt, SlotBytes;
    if slots != [] {
      var n := |slots| - 1;
      var init, last := slots[..n], slots[n];
      SlotsCodec(b, at, init);
      SlotCodec(b, at + RECIPIENT_SLOT_SIZE * n, last);
      HoldsConcat(b, at, SlotsBytes(init), SlotBytes(last));
      assert slots == init + [last];
      if AllSlotsFit(init) {
        SlotsLength(init);
      }
      assert AllSlotsFit(slots) <==> AllSlotsFit(init) && last.Fits();
    }
  }

  lemma PasswordCodec(b: seq<byte>, at: nat, s: PasswordSlot)
    requires at + PASSWORD_SLOT_SIZE <= |b|
    ensures PasswordAt(b, at) == s <==> s.Fits() && Holds(b, at, PasswordBytes(s))
  {
    hide FromLE, ToLE;
    if PasswordAt(b, at) == s {
      ParsedPassword(b, at, s);
    }
    if s.Fits() && Holds(b, at, PasswordBytes(s)) {
      PrintedPassword(b, at, s);
    }
  }

  lemma ParsedPassword(b: seq<byte>, at: nat, s: PasswordSlot)
    requires at + PASSWORD_SLOT_SIZE <= |b| && PasswordAt(b, at) == s
    ensures s.Fits() && Holds(b, at, PasswordBytes(s))
  {
    hide FromLE, ToLE;
    Widths();
    ToFromLE(b[at..at + 4]);
    ToFromLE(b[at + 4..at + 8]);
    ToFromLE(b[at + 8..at + 12]);
    Adjacent(b, at, at + 4, at + 8);
    Adjacent(b, at, at + 8, at + 12);
    Adjacent(b, at, at + 12, at + 28);
    Adjacent(b, at, at + 28, at + 52);
    Adjacent(b, at, at + 52, at + 100);
  }

  lemma PrintedPassword(b: seq<byte>, at: nat, s: PasswordSlot)
    requires s.Fits() && Holds(b, at, PasswordBytes(s))
    ensures at + PASSWORD_SLOT_SIZE <= |b| && PasswordAt(b, at) == s
  {
    hide FromLE, ToLE;
    var c := PasswordBytes(s);
    HoldsPart(b, at, c, 0, 4);
    HoldsPart(b, at, c, 4, 8);
    HoldsPart(b, at, c, 8, 12);
    HoldsPart(b, at, c, 12, 28);
    HoldsPart(b, at, c, 28, 52);
    HoldsPart(b, at, c, 52, 100);
    assert c[0..4] == ToLE(s.memoryKib, 4) && c[4..8] == ToLE(s.iterations, 4) && c[8..12] == ToLE(s.lanes, 4);
    assert c[12..28] == s.salt && c[28..52] == s.nonce && c[52..100] == s.wrappedKey;
    LE32(s.memoryKib);
    LE32(s.iterations);
    LE32(s.lanes);
  }

  lemma PrefixCodec(b: seq<byte>, count: nat, hasPassword: bool)
    requires |b| >= PREFIX_SIZE
    ensures PrefixAt(b) == Some((count, hasPassword))
      <==> 1 <= count <= MAX_RECIPIENTS && Holds(b, 0, PrefixBytes(count, hasPassword))
  {
    if PrefixAt(b) == Some((count, hasPassword)) {
      ParsedPrefix(b, count, hasPassword);
    }
    if 1 <= count <= MAX_RECIPIENTS && Holds(b, 0, PrefixBytes(count, hasPassword)) {
      PrintedPrefix(b, count, hasPassword);
    }
  }

  lemma ParsedPrefix(b: seq<byte>, count: nat, hasPassword: bool)
    requires |b| >= PREFIX_SIZE && PrefixAt(b) == Some((count, hasPassword))
    ensures 1 <= count <= MAX_RECIPIENTS && Holds(b, 0, PrefixBytes(count, hasPassword))
  {
    hide FromLE, ToLE;
    ToFromLE(b[4..6]);
    ToFromLE(b[6..8]);
    ToFromLE(b[8..10]);
    ToFromLE(b[12..16]);
    Adjacent(b, 0, 4, 6);
    Adjacent(b, 0, 6, 8);
    Adjacent(b, 0, 8, 10);
    Adjacent(b, 0, 10, 12);
    Adjacent(b, 0, 12, 16);
  }

  lemma PrintedPrefix(b: seq<byte>, count: nat, hasPassword: bool)
    requires 1 <= count <= MAX_RECIPIENTS && Holds(b, 0, PrefixBytes(count, hasPassword))
    ensures |b| >= PREFIX_SIZE && PrefixAt(b) == Some((count, hasPassword))
  {
    hide FromLE, ToLE;
    var c := PrefixBytes(count, hasPassword);
    var flags := if hasPassword then FLAG_PASSWORD_FALLBACK else 0;
    HoldsPart(b, 0, c, 0, 4);
    HoldsPart(b, 0, c, 4, 6);
    HoldsPart(b, 0, c, 6, 8);
    HoldsPart(b, 0, c, 8, 10);
    HoldsPart(b, 0, c, 10, 12);
    HoldsPart(b, 0, c, 12, 16);
    assert c[0..4] == RECIPIENT_MAGIC && c[4..6] == ToLE(RECIPIENT_VERSION, 2) && c[6..8] == ToLE(flags, 2);
    assert c[8..10] == ToLE(count, 2) && c[10..12] == [0, 0];
    assert c[12..16] == ToLE(HeaderLength(count, hasPassword), 4);
    Widths();
    FromToLE(RECIPIENT_VERSION, 2);
    FromToLE(flags, 2);
    FromToLE(count, 2);
    LE32(HeaderLength(count, hasPassword));
  }

  // An envelope followed by an RGXK payload of more than its marker.
  ghost predicate EnvelopeThenPayload(file: seq<byte>, recipients: seq<RecipientSlot>, password: Option<PasswordSlot>) {
    var n := |EnvelopeBytes(recipients, password)|;
    && 1 <= |recipients| <= MAX_RECIPIENTS && SlotsFit(recipients, password)
    && Holds(file, 0, EnvelopeBytes(recipients, password))
    && |file| > n + 4 && file[n..n + 4] == KeyedStream.KEYED_MAGIC
  }

  lemma EnvelopeLength(recipients: seq<RecipientSlot>, password: Option<PasswordSlot>)
    requires SlotsFit(recipients, password)
    ensures |EnvelopeBytes(recipients, password)| == HeaderLength(|recipients|, password.Some?)
  {
    hide PrefixBytes;
    SlotsLength(recipients);
  }

  // Reading and printing are inverse: a file is read as this envelope exactly
  // when it is its print followed by a payload.
  lemma EnvelopeCodec(hash: seq<byte> -> Digest, file: seq<byte>, e: RecipientEnvelope)
    ensures ParseEnvelope(hash, file) == Some(e)
      <==> && EnvelopeThenPayload(file, e.recipients, e.password)
           && e.payloadOffset == |EnvelopeBytes(e.recipients, e.password)|
           && e.envelopeHash == hash(EnvelopeBytes(e.recipients, e.password))
  {
    if ParseEnvelope(hash, file) == Some(e) {
      ParsedEnvelope(hash, file, e);
    }
    if EnvelopeThenPayload(file, e.recipients, e.password) {
      PrintedEnvelope(hash, file, e.recipients, e.password);
    }
  }

  lemma EnvelopeHolds(file: seq<byte>, recipients: seq<RecipientSlot>, password: Option<PasswordSlot>)
    ensures Holds(file, 0, EnvelopeBytes(recipients, password)) <==>
      && Holds(file, 0, PrefixBytes(|recipients|, password.Some?))
      && Holds(file, PREFIX_SIZE, SlotsBytes(recipients))
      && Holds(file, PREFIX_SIZE + |SlotsBytes(recipients)|, OptionalPasswordBytes(password))
  {
    hide PrefixBytes, SlotsBytes, OptionalPasswordBytes;
    var prefix, slots := PrefixBytes(|recipients|, password.Some?), SlotsBytes(recipients);
    HoldsConcat(file, 0, prefix + slots, OptionalPasswordBytes(password));
    HoldsConcat(file, 0, prefix, slots);
  }

  lemma ParsedEnvelope(hash: seq<byte> -> Digest, file: seq<byte>, e: RecipientEnvelope)
    requires ParseEnvelope(hash, file) == Some(e)
    ensures EnvelopeThenPayload(file, e.recipients, e.password)
    ensures e.payloadOffset == |EnvelopeBytes(e.recipients, e.password)|
    ensures e.envelopeHash == hash(EnvelopeBytes(e.recipients, e.password))
  {
    hide PrefixBytes, PrefixAt, SlotsAt, SlotsBytes, PasswordAt, PasswordBytes, OptionalPasswordBytes, EnvelopeBytes;
    var (count, hasPassword) := PrefixAt(file).value;
    var n := HeaderLength(count, hasPassword);
    assert |e.recipients| == count && e.password.Some? == hasPassword;
    PrefixCodec(file, count, hasPassword);
    BodyCodec(file, e.recipients, e.password);
    EnvelopeHolds(file, e.recipients, e.password);
    EnvelopeLength(e.recipients, e.password);
    assert file[..n] == file[0..n];
  }

  lemma PrintedEnvelope(hash: seq<byte> -> Digest, file: seq<byte>, recipients: seq<RecipientSlot>,
                        password: Option<PasswordSlot>)
    requires EnvelopeThenPayload(file, recipients, password)
    ensures var b := EnvelopeBytes(recipients, password);
      ParseEnvelope(hash, file) == Some(RecipientEnvelope(recipients, password, |b|, hash(b)))
  {
    hide PrefixBytes, PrefixAt, SlotsAt, SlotsBytes, PasswordAt, PasswordBytes, OptionalPasswordBytes, EnvelopeBytes;
    EnvelopeLength(recipients, password);
    EnvelopeHolds(file, recipients, password);
    PrefixCodec(file, |recipients|, password.Some?);
    BodyCodec(file, recipients, password);
    var n := HeaderLength(|recipients|, password.Some?);
    assert file[..n] == file[0..n];
  }

  // The slots behind a good prefix.
  lemma BodyCodec(file: seq<byte>, recipients: seq<RecipientSlot>, password: Option<PasswordSlot>)
    requires |file| >= HeaderLength(|recipients|, password.Some?)
    ensures var n := HeaderLength(|recipients|, password.Some?);
      (SlotsAt(file, PREFIX_SIZE, |recipients|) == recipients
       && password == (if password.Some? then Some(PasswordAt(file, n - PASSWORD_SLOT_SIZE)) else None))
      <==> SlotsFit(recipients, password)
           && Holds(file, PREFIX_SIZE, SlotsBytes(recipients))
           && Holds(file, PREFIX_SIZE + |SlotsBytes(recipients)|, OptionalPasswordBytes(password))
  {
    hide SlotsAt, SlotsBytes, PasswordAt, PasswordBytes;
    SlotsCodec(file, PREFIX_SIZE, recipients);
    if AllSlotsFit(recipients) {
      SlotsLength(recipients);
    }
    if password.Some? {
      PasswordCodec(file, HeaderLength(|recipients|, true) - PASSWORD_SLOT_SIZE, password.value);
    }
  }

  // Every envelope the writer can print, with any payload behind it, is read
  // back with the same slots.
  lemma EnvelopeRoundTrip(hash: seq<byte> -> Digest, recipients: seq<RecipientSlot>, password: Option<PasswordSlot>,
                          payload: seq<byte>)
    requires 1 <= |recipients| <= MAX_RECIPIENTS && SlotsFit(recipients, password)
    requires |payload| > 4 && payload[..4] == KeyedStream.KEYED_MAGIC
    ensures var b := EnvelopeBytes(recipients, password);
      ParseEnvelope(hash, b + payload) == Some(RecipientEnvelope(recipients, password, |b|, hash(b)))
  {
    hide EnvelopeBytes, ParseEnvelope;
    var b := EnvelopeBytes(recipients, password);
    var file := b + payload;
    assert file[0..|b|] == b && file[|b|..|b| + 4] == payload[..4];
    EnvelopeCodec(hash, file, RecipientEnvelope(recipients, password, |b|, hash(b)));
  }

  // ------------------------------------------------------------ step by step

  class Cursor {
    const bytes: seq<byte>
    var position: nat

    constructor (bytes: seq<byte>)
      ensures this.bytes == bytes && position == 0
    {
      this.bytes := bytes;
      position := 0;
    }

    method Take(n: nat) returns (r: Result<seq<byte>>)
      requires position <= |bytes|
      modifies this
      ensures position <= |bytes|
      ensures r.Ok? <==> old(position) + n <= |bytes|
      ensures r.Ok? ==> r.value == bytes[old(position)..old(position) + n] && position == old(position) + n
    {
      if position + n > |bytes| {
        return Err(Truncated);
      }
      r := Ok(bytes[position..position + n]);
      position := position + n;
    }
  }

  method ReadRecipientSlot(cursor: Cursor) returns (r: Result<RecipientSlot>)
    requires cursor.position <= |cursor.bytes|
    modifies cursor
    ensures cursor.position <= |cursor.bytes|
    ensures r.Ok? <==> old(cursor.position) + RECIPIENT_SLOT_SIZE <= |cursor.bytes|
    ensures r.Ok? ==>
      && cursor.position == old(cursor.position) + RECIPIENT_SLOT_SIZE
      && r.value == SlotAt(cursor.bytes, old(cursor.position))
  {
    var keyId := cursor.Take(16);
    if keyId.Err? {
      return Err(keyId.error);
    }
    var ephemeralPublic := cursor.Take(32);
    if ephemeralPublic.Err? {
      return Err(ephemeralPublic.error);
    }
    var nonce := cursor.Take(24);
    if nonce.Err? {
      return Err(nonce.error);
    }
    var wrappedKey := cursor.Take(48);
    if wrappedKey.Err? {
      return Err(wrappedKey.error);
    }
    r := Ok(RecipientSlot(keyId.value, ephemeralPublic.value, nonce.value, wrappedKey.value));
  }

  method ReadFallbackSlot(cursor: Cursor) returns (r: Result<PasswordSlot>)
    requires cursor.position <= |cursor.bytes|
    modifies cursor
    ensures cursor.position <= |cursor.bytes|
    ensures r.Ok? <==> old(cursor.position) + PASSWORD_SLOT_SIZE <= |cursor.bytes|
    ensures r.Ok? ==>
      && cursor.position == old(cursor.position) + PASSWORD_SLOT_SIZE
      && r.value == PasswordAt(cursor.bytes, old(cursor.position))
  {
    hide FromLE;
    var memoryKib := cursor.Take(4);
    if memoryKib.Err? {
      return Err(memoryKib.error);
    }
    var iterations := cursor.Take(4);
    if iterations.Err? {
      return Err(iterations.error);
    }
    var lanes := cursor.Take(4);
    if lanes.Err? {
      return Err(lanes.error);
    }
    var salt := cursor.Take(16);
    if salt.Err? {
      return Err(salt.error);
    }
    var nonce := cursor.Take(24);
    if nonce.Err? {
      return Err(nonce.error);
    }
    var wrappedKey := cursor.Take(48);
    if wrappedKey.Err? {
      return Err(wrappedKey.error);
    }
    r := Ok(PasswordSlot(FromLE(memoryKib.value), FromLE(iterations.value), FromLE(lanes.value),
                         salt.value, nonce.value, wrappedKey.value));
  }

  method ValidatePrefix(prefix: seq<byte>) returns (r: Result<()>)
    requires |prefix| == PREFIX_SIZE
    ensures r.Ok? <==>
      && prefix[0..4] == RECIPIENT_MAGIC && U16At(prefix, 4) == RECIPIENT_VERSION
      && U16At(prefix, 6) <= FLAG_PASSWORD_FALLBACK
      && 1 <= U16At(prefix, 8) <= MAX_RECIPIENTS
      && prefix[10..12] == [0, 0]
  {
    hide FromLE;
    if prefix[0..4] != RECIPIENT_MAGIC {
      return Err(BadMagic);
    }
    if U16At(prefix, 4) != RECIPIENT_VERSION {
      return Err(BadVersion);
    }
    if U16At(prefix, 6) > FLAG_PASSWORD_FALLBACK {
      return Err(Unsupported);
    }
    var recipientCount := U16At(prefix, 8);
    if recipientCount == 0 || recipientCount > MAX_RECIPIENTS {
      return Err(BadHeader);
    }
    if prefix[10..12] != [0, 0] {
      return Err(BadHeader);
    }
    r := Ok(());
  }

  // Reads the slots behind the prefix. The check that the cursor has consumed
  // the whole header never fails.
  method ReadSlots(envelope: seq<byte>, count: nat, hasPassword: bool)
    returns (r: Result<(seq<RecipientSlot>, Option<PasswordSlot>)>)
    requires |envelope| == HeaderLength(count, hasPassword)
    ensures r.Ok?
    ensures r.value.0 == SlotsAt(envelope[PREFIX_SIZE..], 0, count)
    ensures r.value.1 == (if hasPassword then Some(PasswordAt(envelope, |envelope| - PASSWORD_SLOT_SIZE)) else None)
  {
    hide PasswordAt, SlotAt;
    var cursor := new Cursor(envelope[PREFIX_SIZE..]);
    var recipients := [];
    var i := 0;
    while i < count
      invariant i <= count && cursor.position == RECIPIENT_SLOT_SIZE * i <= |cursor.bytes|
      invariant recipients == SlotsAt(cursor.bytes, 0, i)
    {
      var slot := ReadRecipientSlot(cursor);
      if slot.Err? {
        return Err(Truncated);
      }
      recipients := recipients + [slot.value];
      i := i + 1;
    }
    var password := None;
    if hasPassword {
      var slot := ReadFallbackSlot(cursor);
      if slot.Err? {
        return Err(Truncated);
      }
      PasswordShift(envelope, envelope[PREFIX_SIZE..], |envelope| - PASSWORD_SLOT_SIZE - PREFIX_SIZE, PREFIX_SIZE);
      password := Some(slot.value);
    }
    if cursor.position != |envelope| - PREFIX_SIZE {
      return Err(BadHeader);
    }
    r := Ok((recipients, password));
  }

  lemma PasswordShift(b: seq<byte>, c: seq<byte>, at: nat, shift: nat)
    requires at + PASSWORD_SLOT_SIZE <= |c| && shift + |c| <= |b| && c == b[shift..shift + |c|]
    ensures PasswordAt(c, at) == PasswordAt(b, shift + at)
  {
    hide FromLE;
    HoldsPart(b, shift, c, at, at + 4);
    HoldsPart(b, shift, c, at + 4, at + 8);
    HoldsPart(b, shift, c, at + 8, at + 12);
    HoldsPart(b, shift, c, at + 12, at + 28);
    HoldsPart(b, shift, c, at + 28, at + 52);
    HoldsPart(b, shift, c, at + 52, at + 100);
  }

  lemma SlotShift(b: seq<byte>, c: seq<byte>, at: nat, shift: nat)
    requires at + RECIPIENT_SLOT_SIZE <= |c| && shift + |c| <= |b| && c == b[shift..shift + |c|]
    ensures SlotAt(c, at) == SlotAt(b, shift + at)
  {
    HoldsPart(b, shift, c, at, at + 16);
    HoldsPart(b, shift, c, at + 16, at + 48);
    HoldsPart(b, shift, c, at + 48, at + 72);
    HoldsPart(b, shift, c, at + 72, at + 120);
  }

  lemma {:induction false} SlotsShift(b: seq<byte>, c: seq<byte>, shift: nat, count: nat)
    requires RECIPIENT_SLOT_SIZE * count <= |c| && shift + |c| <= |b| && c == b[shift..shift + |c|]
    ensures SlotsAt(c, 0, count) == SlotsAt(b, shift, count)
  {
    hide SlotAt;
    if count > 0 {
      SlotsShift(b, c, shift, count - 1);
      SlotShift(b, c, RECIPIENT_SLOT_SIZE * (count - 1), shift);
    }
  }

  // Accepts exactly the files that parse, with what they parse to.
  method ReadEnvelope(hash: seq<byte> -> Digest, file: seq<byte>) returns (r: Result<RecipientEnvelope>)
    ensures r.Ok? <==> ParseEnvelope(hash, file).Some?
    ensures r.Ok? ==> ParseEnvelope(hash, file) == Some(r.value)
  {
    hide FromLE, SlotsAt, PasswordAt;
    if PREFIX_SIZE > |file| {
      return Err(Truncated);
    }
    var prefix := file[0..PREFIX_SIZE];
    PrefixFields(file, prefix);
    var valid := ValidatePrefix(prefix);
    if valid.Err? {
      return Err(valid.error);
    }
    var hasPassword := U16At(prefix, 6) == FLAG_PASSWORD_FALLBACK;
    var count := U16At(prefix, 8);
    var expected := HeaderLength(count, hasPassword);
    if U32At(prefix, 12) != expected {
      return Err(BadHeader);
    }
    if |file| <= expected + 4 {
      return Err(Truncated);
    }
    var envelope := file[..expected];
    var slots := ReadSlots(envelope, count, hasPassword);
    if slots.Err? {
      return Err(BadHeader);
    }
    if file[expected..expected + 4] != KeyedStream.KEYED_MAGIC {
      return Err(BadMagic);
    }
    SlotsShift(file, envelope[PREFIX_SIZE..], PREFIX_SIZE, count);
    if hasPassword {
      PasswordShift(file, envelope, expected - PASSWORD_SLOT_SIZE, 0);
    }
    r := Ok(RecipientEnvelope(slots.value.0, slots.value.1, expected, hash(envelope)));
  }

  lemma PrefixFields(file: seq<byte>, prefix: seq<byte>)
    requires |file| >= PREFIX_SIZE && prefix == file[0..PREFIX_SIZE]
    ensures prefix[0..4] == file[0..4] && prefix[10..12] == file[10..12]
    ensures U16At(prefix, 4) == U16At(file, 4) && U16At(prefix, 6) == U16At(file, 6) && U16At(prefix, 8) == U16At(file, 8)
    ensures U32At(prefix, 12) == U32At(file, 12)
  {
    hide FromLE;
    assert prefix[4..6] == file[4..6] && prefix[6..8] == file[6..8] && prefix[8..10] == file[8..10];
    assert prefix[12..16] == file[12..16];
  }
}
