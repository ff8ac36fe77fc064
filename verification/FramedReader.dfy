// The random-access reader over a framed stream: KeyedReader and
// EncryptedReader are this machine with different headers and seek rules.
module FramedReader {
  import opened Bytes
  import opened FramedStream
  import opened Tiling

  datatype SeekFrom = Start(value: nat) | Current(delta: int) | End(delta: int)

  // A seek target is refused below zero and above the limit.
  function SeekTarget(from: SeekFrom, position: nat, length: nat, limit: nat): Option<nat> {
    var next := match from
      case Start(value) => value
      case Current(delta) => position + delta
      case End(delta) => length + delta;
    if next < 0 || next > limit then None else Some(next)
  }

  // Reads and checks the header of frame `sequence` during the opening scan.
  method CheckFrame(file: seq<byte>, l: Layout, start: nat, sequence: nat) returns (r: Result<FrameInfo>)
    requires l.WellFormed() && FrameOffset(l, start, sequence) <= |file| <= I64_MAX
    requires forall i: nat :: i < sequence ==> FullFrameAt(file, l, start, i)
    ensures r.Ok? ==>
      && Acceptable(r.value, l.frameSize) && r.value.sequence == sequence
      && FrameHeaderAt(file, l, start, sequence, r.value)
      && FrameOffset(l, start, sequence) + FRAME_HEADER_SIZE + r.value.cipherLen <= |file|
      && (r.value.last ==> FrameOffset(l, start, sequence) + FRAME_HEADER_SIZE + r.value.cipherLen == |file|)
    ensures r.Err? ==> r.error != Overflow && !exists k: nat, plain: nat :: Tiled(file, l, start, k, plain)
  {
    hide EncodeFrameHeader, DecodeFrameHeader, FrameOffset;
    OffsetSteps(l, start, sequence, sequence);
    if sequence * l.Stride() > U64_MAX || FrameOffset(l, start, sequence) > U64_MAX {
      return Err(Overflow);
    }
    var offset := FrameOffset(l, start, sequence);
    if BadFrameAt(file, l, start, sequence) {
      NotTiledHere(file, l, start, sequence);
    }
    // This sum is not checked for overflow; it cannot wrap.
    assert offset + FRAME_HEADER_SIZE <= U64_MAX;
    if offset + FRAME_HEADER_SIZE > |file| {
      return Err(Truncated);
    }
    var h := file[offset..offset + FRAME_HEADER_SIZE];
    var decoded := DecodeFrameHeader(l.frameMagic, l.frameSize, h);
    if decoded.Err? {
      return Err(decoded.error);
    }
    var f := decoded.value;
    FrameHeaderCodec(l.frameMagic, l.frameSize, h, f);
    if f.sequence != sequence {
      return Err(BadFrame);
    }
    var end := offset + FRAME_HEADER_SIZE + f.cipherLen;
    if end > U64_MAX {
      return Err(Overflow);
    }
    if end > |file| {
      return Err(Truncated);
    }
    if f.last && end != |file| {
      return Err(Trailing);
    }
    r := Ok(f);
  }

  // Walks the frame headers from `start` to the end of the file and returns
  // the plaintext length and the number of the final frame. No offset ever
  // exceeds the file length by more than one frame header, so none of the
  // overflow branches is taken. Files are at most 2^63-1 bytes long.
  method ScanFrames(file: seq<byte>, l: Layout, start: nat) returns (r: Result<(nat, nat)>)
    requires l.WellFormed() && start <= |file| <= I64_MAX
    ensures r.Ok? <==> exists k: nat, plain: nat :: Tiled(file, l, start, k, plain)
    ensures r.Ok? ==> r.value.0 <= U64_MAX
    ensures r.Ok? ==> exists plain: nat :: Tiled(file, l, start, r.value.1, plain)
                                           && r.value.0 == r.value.1 * l.frameSize + plain
    ensures r.Err? ==> r.error != Overflow
  {
    hide EncodeFrameHeader, FrameOffset;
    var sequence := 0;
    OffsetZero(l, start);
    while true
      invariant FrameOffset(l, start, sequence) <= |file|
      invariant forall i: nat :: i < sequence ==> FullFrameAt(file, l, start, i)
      decreases |file| - FrameOffset(l, start, sequence)
    {
      OffsetSteps(l, start, sequence, sequence);
      var checked := CheckFrame(file, l, start, sequence);
      if checked.Err? {
        return Err(checked.error);
      }
      var f := checked.value;
      if f.last {
        TotalFits(l, start, sequence, f.plainLen, |file|);
        if sequence * l.frameSize + f.plainLen > U64_MAX {
          return Err(Overflow);
        }
        assert f == InfoFor(sequence, f.plainLen, true);
        assert Tiled(file, l, start, sequence, f.plainLen);
        return Ok((sequence * l.frameSize + f.plainLen, sequence));
      }
      assert f == InfoFor(sequence, l.frameSize, false);
      assert FullFrameAt(file, l, start, sequence);
      if sequence + 1 > U64_MAX {
        return Err(Overflow);
      }
      sequence := sequence + 1;
    }
  }

  lemma OffsetZero(l: Layout, start: nat)
    ensures FrameOffset(l, start, 0) == start
  {
  }

  lemma TotalFits(l: Layout, start: nat, sequence: nat, plain: nat, length: nat)
    requires FrameOffset(l, start, sequence) + FRAME_HEADER_SIZE + plain + TAG_SIZE <= length
    ensures sequence * l.frameSize + plain <= length
  {
    assert sequence * l.Stride() == sequence * l.frameSize + sequence * (FRAME_HEADER_SIZE + TAG_SIZE);
  }

  // The frame a reader expects next, when it is not there.
  ghost predicate BadFrameAt(file: seq<byte>, l: Layout, start: nat, i: nat)
    requires l.WellFormed()
  {
    var at := FrameOffset(l, start, i);
    || at + FRAME_HEADER_SIZE > |file|
    || var decoded := DecodeFrameHeader(l.frameMagic, l.frameSize, file[at..at + FRAME_HEADER_SIZE]);
       || decoded.Err?
       || decoded.value.sequence != i
       || at + FRAME_HEADER_SIZE + decoded.value.cipherLen > |file|
       || (decoded.value.last && at + FRAME_HEADER_SIZE + decoded.value.cipherLen != |file|)
  }

  lemma NotTiledHere(file: seq<byte>, l: Layout, start: nat, i: nat)
    requires l.WellFormed()
    requires forall j: nat :: j < i ==> FullFrameAt(file, l, start, j)
    requires BadFrameAt(file, l, start, i)
    ensures !exists k: nat, plain: nat :: Tiled(file, l, start, k, plain)
  {
    hide EncodeFrameHeader, DecodeFrameHeader, FrameOffset;
    forall k: nat, plain: nat | Tiled(file, l, start, k, plain)
      ensures false
    {
      if k < i {
        assert FullFrameAt(file, l, start, k);
        FlagsDiffer(l.frameMagic, InfoFor(k, plain, true), InfoFor(k, l.frameSize, false));
      } else {
        TiledInside(file, l, start, k, plain, i);
        var f := if i < k then InfoFor(i, l.frameSize, false) else InfoFor(k, plain, true);
        var at := FrameOffset(l, start, i);
        FrameHeaderCodec(l.frameMagic, l.frameSize, file[at..at + FRAME_HEADER_SIZE], f);
      }
    }
  }

  // A stream opened at offset `start` - |header| of `file`.
  class Reader {
    const file: seq<byte>
    const layout: Layout
    const start: nat
    const plaintextLen: nat
    const finalSequence: nat
    // RGXK refuses to seek past the end of the plaintext, RGXE does not.
    const bounded: bool
    var position: nat
    var cachedSequence: Option<nat>
    var cachedPlaintext: seq<byte>

    // The cache, when set, holds the plaintext of the frame it names.
    ghost predicate Valid()
      reads this
    {
      && layout.WellFormed()
      && finalSequence * layout.frameSize <= plaintextLen
      && Tiled(file, layout, start, finalSequence, plaintextLen - finalSequence * layout.frameSize)
      && |file| <= I64_MAX
      && (bounded ==> position <= plaintextLen)
      && position <= U64_MAX && plaintextLen <= U64_MAX
      && (cachedSequence.Some? ==>
          && cachedSequence.value <= finalSequence
          && FrameText(file, layout, start, cachedSequence.value) == Some(cachedPlaintext))
    }

    ghost function Contents(): (s: seq<byte>)
      requires layout.WellFormed()
      ensures |s| == plaintextLen
    {
      Plaintext(file, layout, start, plaintextLen)
    }

    // Do all frames holding bytes from..to authenticate?
    ghost predicate CanRead(from: nat, to: nat)
      requires layout.WellFormed()
    {
      Readable(file, layout, start, from, to)
    }

    constructor (file: seq<byte>, layout: Layout, start: nat, plaintextLen: nat, finalSequence: nat, bounded: bool)
      requires layout.WellFormed() && |file| <= I64_MAX && plaintextLen <= U64_MAX
      requires finalSequence * layout.frameSize <= plaintextLen
      requires Tiled(file, layout, start, finalSequence, plaintextLen - finalSequence * layout.frameSize)
      ensures Valid() && position == 0
      ensures this.file == file && this.layout == layout && this.start == start
      ensures this.plaintextLen == plaintextLen && this.finalSequence == finalSequence && this.bounded == bounded
    {
      this.file := file;
      this.layout := layout;
      this.start := start;
      this.plaintextLen := plaintextLen;
      this.finalSequence := finalSequence;
      this.bounded := bounded;
      position := 0;
      cachedSequence := None;
      cachedPlaintext := [];
    }

    // Reads frame `sequence` from the file and opens it.
    method FetchFrame(sequence: nat) returns (r: Result<seq<byte>>)
      requires Valid() && sequence <= finalSequence
      ensures r.Ok? <==> FrameText(file, layout, start, sequence).Some?
      ensures r.Ok? ==> r.value == FrameText(file, layout, start, sequence).value
      ensures r.Err? ==> r.error == Authentication
    {
      hide EncodeFrameHeader, DecodeFrameHeader, FrameOffset, Plaintext, Tiled;
      ghost var plain := plaintextLen - finalSequence * layout.frameSize;
      HeaderStillGood(file, layout, start, finalSequence, plain, sequence);
      var offset := FrameOffset(layout, start, sequence);
      if offset > U64_MAX {
        return Err(Overflow);
      }
      if offset + FRAME_HEADER_SIZE > |file| {
        return Err(Truncated);
      }
      var h := file[offset..offset + FRAME_HEADER_SIZE];
      var decoded := DecodeFrameHeader(layout.frameMagic, layout.frameSize, h);
      if decoded.Err? {
        return Err(BadFrame);
      }
      var info := decoded.value;
      if info.sequence != sequence {
        return Err(BadFrame);
      }
      if offset + FRAME_HEADER_SIZE + info.cipherLen > |file| {
        return Err(Truncated);
      }
      var body := file[offset + FRAME_HEADER_SIZE..offset + FRAME_HEADER_SIZE + info.cipherLen];
      var text := layout.cipher.unseal(Nonce(layout, sequence), layout.header + h, body);
      if text.None? || |text.value| != info.plainLen {
        return Err(Authentication);
      }
      r := Ok(text.value);
    }

    // Brings a frame into the cache; fails exactly when the frame does not
    // authenticate.
    method LoadFrame(sequence: nat) returns (r: Result<()>)
      requires Valid() && sequence <= finalSequence
      modifies this`cachedSequence, this`cachedPlaintext
      ensures Valid()
      ensures r.Ok? <==> FrameText(file, layout, start, sequence).Some?
      ensures r.Ok? ==> cachedSequence == Some(sequence)
      ensures r.Err? ==> r.error == Authentication
    {
      hide FrameText, Tiled, Plaintext;
      if cachedSequence == Some(sequence) {
        return Ok(());
      }
      if sequence > finalSequence {
        return Err(BadSeek);
      }
      var text := FetchFrame(sequence);
      if text.Err? {
        return Err(text.error);
      }
      cachedPlaintext := text.value;
      cachedSequence := Some(sequence);
      r := Ok(());
    }

    // One turn of the read loop: copies what the frame under the cursor offers.
    method CopyFromFrame(n: nat) returns (r: Result<seq<byte>>)
      requires Valid() && n > 0 && position < plaintextLen
      modifies this
      ensures Valid()
      ensures r.Ok? ==>
        && 0 < |r.value| <= n
        && position == old(position) + |r.value| <= plaintextLen
        && r.value == Contents()[old(position)..position]
        && CanRead(old(position), position)
      ensures r.Err? ==> r.error == Authentication && position == old(position)
      ensures r.Err? ==> FrameText(file, layout, start, Quot(position, layout.frameSize)).None?
    {
      hide FrameText, Tiled, Plaintext, Quot, Rem, Readable;
      ghost var plain := plaintextLen - finalSequence * layout.frameSize;
      var sequence := Quot(position, layout.frameSize);
      var within := Rem(position, layout.frameSize);
      PositionInStream(file, layout, start, finalSequence, plain, position);
      var loaded := LoadFrame(sequence);
      if loaded.Err? {
        return Err(loaded.error);
      }
      FrameTextLength(file, layout, start, finalSequence, plain, sequence);
      var available := if |cachedPlaintext| > within then |cachedPlaintext| - within else 0;
      if available == 0 {
        return Err(Truncated);
      }
      var take := Min(available, n);
      FrameIsWindow(file, layout, start, finalSequence, plain, position, take);
      assert cachedPlaintext[within..within + take] == Contents()[position..position + take];
      r := Ok(cachedPlaintext[within..within + take]);
      position := position + take;
    }

    // Copies at most n bytes from the cursor, frame by frame. Succeeds exactly
    // when every frame it has to touch authenticates; otherwise the cursor is
    // left where the first frame that does not begins, or where it was inside
    // that frame.
    method Read(n: nat) returns (r: Result<seq<byte>>)
      requires Valid()
      modifies this
      ensures Valid()
      ensures r.Ok? <==> CanRead(old(position), old(position) + |Window(Contents(), old(position), n)|)
      ensures r.Ok? ==> r.value == Window(Contents(), old(position), n) && position == old(position) + |r.value|
      ensures r.Err? ==>
        && r.error == Authentication
        && old(position) <= position < old(position) + |Window(Contents(), old(position), n)|
        && CanRead(old(position), position)
        && FrameText(file, layout, start, Quot(position, layout.frameSize)).None?
        && (position == old(position) || Rem(position, layout.frameSize) == 0)
    {
      hide FrameText, Tiled, Plaintext, Quot, Rem;
      if n == 0 || position >= plaintextLen {
        return Ok([]);
      }
      var output := [];
      ghost var from := position;
      while |output| < n && position < plaintextLen
        invariant Valid()
        invariant position == from + |output| <= plaintextLen && |output| <= n
        invariant output == Contents()[from..position]
        invariant CanRead(from, position)
        decreases plaintextLen - position
      {
        ghost var at := position;
        var part := CopyFromFrame(n - |output|);
        if part.Err? {
          BadFrameStart(file, layout, start, from, position);
          return Err(part.error);
        }
        assert Contents()[from..position] == Contents()[from..at] + Contents()[at..position];
        output := output + part.value;
      }
      r := Ok(output);
    }

    // The furthest position a seek may reach.
    function SeekLimit(): nat {
      if bounded then plaintextLen else U64_MAX
    }

    method Seek(from: SeekFrom) returns (r: Result<nat>)
      requires Valid()
      modifies this`position
      ensures Valid()
      ensures var target := SeekTarget(from, old(position), |Contents()|, SeekLimit());
        && (r.Ok? <==> target.Some?)
        && (r.Ok? ==> r.value == position == target.value)
        && (r.Err? ==> position == old(position))
      ensures var wanted: int := match from
          case Start(value) => value
          case Current(delta) => old(position) + delta
          case End(delta) => plaintextLen + delta;
        && (r.Ok? <==> 0 <= wanted <= if bounded then plaintextLen else U64_MAX)
        && (r.Ok? ==> position == wanted)
    {
      hide FrameText, Tiled, Plaintext;
      var next: int;
      match from {
        case Start(value) => next := value;
        case Current(delta) => next := position + delta;
        case End(delta) => next := plaintextLen + delta;
      }
      if next < 0 || next > SeekLimit() {
        return Err(BadSeek);
      }
      position := next;
      r := Ok(position);
    }
  }

  // Between a readable byte and an unreadable one lies the start of a frame.
  lemma BadFrameStart(file: seq<byte>, l: Layout, start: nat, from: nat, position: nat)
    requires l.WellFormed() && from <= position && Readable(file, l, start, from, position)
    requires FrameText(file, l, start, Quot(position, l.frameSize)).None?
    ensures position == from || Rem(position, l.frameSize) == 0
  {
    hide FrameText, Quot, Rem;
    var within := Rem(position, l.frameSize);
    if position > from && within > 0 {
      DivMod(Quot(position, l.frameSize), l.frameSize, within - 1);
    }
  }

  // A position inside the plaintext selects a frame of the stream and a byte
  // that this frame holds.
  lemma PositionInStream(file: seq<byte>, l: Layout, start: nat, k: nat, plain: nat, position: nat)
    requires l.WellFormed() && Tiled(file, l, start, k, plain)
    requires position < k * l.frameSize + plain
    ensures var i, within := Quot(position, l.frameSize), Rem(position, l.frameSize);
      && i <= k && plain <= l.frameSize
      && within < (if i < k then l.frameSize else plain)
      && position - within + (if i < k then l.frameSize else plain) <= k * l.frameSize + plain
  {
    hide Quot, Rem, FrameOffset, FullFrameAt, FrameHeaderAt;
    var i := Quot(position, l.frameSize);
    if i < k {
      Monotone(i + 1, k, l.frameSize);
    } else if i > k {
      Monotone(k + 1, i, l.frameSize);
    }
  }

  // A run of bytes inside one frame is the same run of the plaintext.
  lemma FrameIsWindow(file: seq<byte>, l: Layout, start: nat, k: nat, plain: nat, position: nat, take: nat)
    requires l.WellFormed() && Tiled(file, l, start, k, plain)
    requires position < k * l.frameSize + plain
    requires var text := FrameText(file, l, start, Quot(position, l.frameSize));
      text.Some? && Rem(position, l.frameSize) + take <= |text.value|
    ensures var within := Rem(position, l.frameSize);
      var text := FrameText(file, l, start, Quot(position, l.frameSize)).value;
      && position + take <= k * l.frameSize + plain
      && text[within..within + take]
         == Plaintext(file, l, start, k * l.frameSize + plain)[position..position + take]
    ensures Readable(file, l, start, position, position + take)
  {
    hide Quot, Rem, FrameText, Tiled;
    var i, within := Quot(position, l.frameSize), Rem(position, l.frameSize);
    PositionInStream(file, l, start, k, plain, position);
    FrameTextLength(file, l, start, k, plain, i);
    forall j: nat | position <= j < position + take
      ensures Quot(j, l.frameSize) == i && Rem(j, l.frameSize) == within + (j - position)
    {
      DivMod(i, l.frameSize, within + (j - position));
    }
  }

  // A frame header accepted by the opening scan is accepted when read again.
  lemma HeaderStillGood(file: seq<byte>, l: Layout, start: nat, k: nat, plain: nat, i: nat)
    requires l.WellFormed() && Tiled(file, l, start, k, plain) && i <= k
    ensures var at := FrameOffset(l, start, i);
      && at + FRAME_HEADER_SIZE <= |file|
      && var decoded := DecodeFrameHeader(l.frameMagic, l.frameSize, file[at..at + FRAME_HEADER_SIZE]);
         && decoded.Ok? && decoded.value.sequence == i
         && at + FRAME_HEADER_SIZE + decoded.value.cipherLen <= |file|
  {
    hide EncodeFrameHeader, DecodeFrameHeader, FrameOffset;
    TiledInside(file, l, start, k, plain, i);
    var at := FrameOffset(l, start, i);
    FrameHeaderCodec(l.frameMagic, l.frameSize, file[at..at + FRAME_HEADER_SIZE],
                     if i < k then InfoFor(i, l.frameSize, false) else InfoFor(k, plain, true));
  }
}
