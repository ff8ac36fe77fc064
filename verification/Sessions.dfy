// Whole runs of the framed stream: any split of the plaintext into writes, then
// any list of reads and seeks, behave like a byte array with a cursor.
module Sessions {
  import opened Bytes
  import opened Sequences
  import opened FramedStream
  import opened Tiling
  import FramedReader
  import FramedWriter
  import KeyedStream
  import PrivateStream

  datatype Op = ReadOp(n: nat) | SeekOp(from: FramedReader.SeekFrom)

  datatype Outcome = Got(data: seq<byte>) | Moved(position: nat) | Refused

  // The first byte in at..end that cannot be read, or `end`.
  function FirstBad(good: seq<bool>, at: nat, end: nat): (k: nat)
    requires at <= end <= |good|
    ensures at <= k <= end
    ensures forall i :: at <= i < k ==> good[i]
    ensures k < end ==> !good[k]
    decreases end - at
  {
    if at == end || !good[at] then at else FirstBad(good, at + 1, end)
  }

  // One operation on a byte array with a cursor, some bytes of which may be
  // bad: what it answers and where the cursor is afterwards. A read over a bad
  // byte is refused and stops in front of it; seeks beyond `limit` are refused.
  function Step(data: seq<byte>, good: seq<bool>, limit: nat, position: nat, op: Op): (Outcome, nat)
    requires |good| == |data|
  {
    match op
    case ReadOp(n) =>
      var got := Window(data, position, n);
      if got == [] then (Got([]), position)
      else
        var stop := FirstBad(good, position, position + |got|);
        if stop < position + |got| then (Refused, stop) else (Got(got), stop)
    case SeekOp(from) =>
      var target := FramedReader.SeekTarget(from, position, |data|, limit);
      if target.None? then (Refused, position) else (Moved(target.value), target.value)
  }

  function Outcomes(data: seq<byte>, good: seq<bool>, limit: nat, position: nat, ops: seq<Op>): seq<Outcome>
    requires |good| == |data|
    decreases |ops|
  {
    if ops == [] then []
    else
      var (outcome, next) := Step(data, good, limit, position, ops[0]);
      [outcome] + Outcomes(data, good, limit, next, ops[1..])
  }

  function AllGood(n: nat): seq<bool> {
    seq(n, _ => true)
  }

  // Where no byte is bad, every read is answered with what lies at the cursor.
  lemma GoodReads(data: seq<byte>, limit: nat, position: nat, n: nat)
    ensures var got := Window(data, position, n);
      Step(data, AllGood(|data|), limit, position, ReadOp(n)) == (Got(got), position + |got|)
  {
  }

  // Which bytes of an opened stream lie in frames that authenticate.
  ghost function GoodBytes(reader: FramedReader.Reader): (good: seq<bool>)
    requires reader.layout.WellFormed()
    ensures |good| == reader.plaintextLen
  {
    seq(reader.plaintextLen, i requires 0 <= i < reader.plaintextLen => reader.CanRead(i, i + 1))
  }

  lemma ReadableByBytes(reader: FramedReader.Reader, from: nat, to: nat)
    requires reader.layout.WellFormed() && from <= to <= reader.plaintextLen
    ensures reader.CanRead(from, to) <==> forall i: nat :: from <= i < to ==> GoodBytes(reader)[i]
  {
    hide FrameText, Quot;
    if reader.CanRead(from, to) {
      forall i: nat | from <= i < to
        ensures GoodBytes(reader)[i]
      {
        assert reader.CanRead(i, i + 1);
      }
    }
    if forall i: nat :: from <= i < to ==> GoodBytes(reader)[i] {
      forall i: nat | from <= i < to
        ensures FrameText(reader.file, reader.layout, reader.start, Quot(i, reader.layout.frameSize)).Some?
      {
        assert GoodBytes(reader)[i];
      }
    }
  }

  lemma AllBytesGood(reader: FramedReader.Reader)
    requires reader.layout.WellFormed() && reader.CanRead(0, reader.plaintextLen)
    ensures GoodBytes(reader) == AllGood(reader.plaintextLen)
  {
    hide FrameText, Quot;
    ReadableByBytes(reader, 0, reader.plaintextLen);
  }

  method Perform(reader: FramedReader.Reader, op: Op) returns (outcome: Outcome)
    requires reader.Valid()
    modifies reader
    ensures reader.Valid()
    ensures (outcome, reader.position)
         == Step(reader.Contents(), GoodBytes(reader), reader.SeekLimit(), old(reader.position), op)
  {
    hide Plaintext, FrameText, Tiled, Readable, Quot, Rem;
    match op {
      case ReadOp(n) =>
        ghost var at := reader.position;
        ghost var size := |Window(reader.Contents(), at, n)|;
        var got := reader.Read(n);
        if size > 0 {
          ReadStops(reader, at, at + size, got.Ok?);
        }
        outcome := if got.Ok? then Got(got.value) else Refused;
      case SeekOp(from) =>
        var moved := reader.Seek(from);
        outcome := if moved.Ok? then Moved(moved.value) else Refused;
    }
  }

  // A read stops at the first bad byte.
  lemma ReadStops(reader: FramedReader.Reader, at: nat, end: nat, done: bool)
    requires reader.Valid() && at < end <= reader.plaintextLen
    requires done ==> reader.position == end && reader.CanRead(at, end)
    requires !done ==>
      && at <= reader.position < end && reader.CanRead(at, reader.position)
      && FrameText(reader.file, reader.layout, reader.start, Quot(reader.position, reader.layout.frameSize)).None?
    ensures FirstBad(GoodBytes(reader), at, end) == reader.position
  {
    hide Plaintext, FrameText, Tiled, Quot;
    ReadableByBytes(reader, at, reader.position);
    ReadableByBytes(reader, at, end);
    var k := FirstBad(GoodBytes(reader), at, end);
    if !done {
      assert !reader.CanRead(reader.position, reader.position + 1);
      assert !GoodBytes(reader)[reader.position];
    }
  }

  // A reader over any stream that opened answers every list of operations as
  // the byte array does, with the bytes of frames that do not authenticate as
  // the bad ones.
  method Replay(reader: FramedReader.Reader, ops: seq<Op>) returns (outcomes: seq<Outcome>)
    requires reader.Valid()
    modifies reader
    ensures reader.Valid()
    ensures outcomes == Outcomes(reader.Contents(), GoodBytes(reader), reader.SeekLimit(), old(reader.position), ops)
  {
    hide Plaintext, FrameText, Tiled, Readable, Step, GoodBytes;
    outcomes := [];
    var i := 0;
    ghost var data, good, limit := reader.Contents(), GoodBytes(reader), reader.SeekLimit();
    while i < |ops|
      invariant i <= |ops| && reader.Valid()
      invariant outcomes + Outcomes(data, good, limit, reader.position, ops[i..])
             == Outcomes(data, good, limit, old(reader.position), ops)
    {
      ghost var at := reader.position;
      assert ops[i..][0] == ops[i] && ops[i..][1..] == ops[i + 1..];
      var outcome := Perform(reader, ops[i]);
      ghost var later := Outcomes(data, good, limit, reader.position, ops[i + 1..]);
      assert Outcomes(data, good, limit, at, ops[i..]) == [outcome] + later;
      assert outcomes + ([outcome] + later) == (outcomes + [outcome]) + later;
      outcomes := outcomes + [outcome];
      i := i + 1;
    }
    assert ops[i..] == [];
  }

  // Any split into writes leaves the same file.
  method WritePieces(w: FramedWriter.Writer, pieces: seq<seq<byte>>) returns (r: Result<()>)
    requires w.Valid() && !w.finished && w.written == []
    modifies w
    ensures r.Ok? <==> |Flatten(pieces)| < U64_MAX * w.layout.frameSize
    ensures r.Ok? ==> w.out == w.prefix + StreamBytes(w.layout, Flatten(pieces))
  {
    assert Flatten(pieces[..0]) == [];
    hide StreamBytes, SealAll, SealFrame, Blocks, Flatten;
    var i := 0;
    while i < |pieces|
      invariant i <= |pieces| && w.Valid() && !w.finished && w.written == Flatten(pieces[..i])
    {
      FlattenFront(pieces, i);
      var wrote := w.Write(pieces[i]);
      if wrote.Err? {
        return Err(wrote.error);
      }
      i := i + 1;
    }
    assert pieces[..i] == pieces;
    r := w.Finish();
  }

  // RGXK: a written stream opens, and reads as the data written.
  method ReopenKeyed(file: seq<byte>, before: seq<byte>, cipher: Cipher, h: KeyedStream.StreamHeader, ghost data: seq<byte>)
    returns (reader: FramedReader.Reader)
    requires cipher.Lawful() && h.Acceptable() && |data| < U64_MAX * h.frameSize
    requires file == before + StreamBytes(KeyedStream.LayoutOf(h, cipher), data) && |file| <= I64_MAX
    ensures fresh(reader) && reader.Valid() && reader.bounded && reader.position == 0
    ensures reader.Contents() == data && reader.CanRead(0, |data|)
  {
    hide StreamBytes, FrameText, Tiled;
    KeyedWritten(before, cipher, h, data);
    var stream := KeyedStream.Open(file, |before|, cipher, h.envelopeHash);
    reader := stream.value;
  }

  // RGXK: write in any pieces after any envelope bytes, open, then read and
  // seek at will. Seeks past the end are refused.
  method KeyedSession(before: seq<byte>, cipher: Cipher, envelopeHash: seq<byte>, noncePrefix: seq<byte>,
                      pieces: seq<seq<byte>>, ops: seq<Op>)
    returns (r: Result<seq<Outcome>>)
    requires cipher.Lawful()
    requires |noncePrefix| == NONCE_PREFIX_SIZE && |envelopeHash| == KeyedStream.HASH_SIZE
    ensures var l := KeyedStream.LayoutOf(KeyedStream.StreamHeader(DEFAULT_FRAME_SIZE, noncePrefix, envelopeHash), cipher);
      var data := Flatten(pieces);
      && (r.Ok? <==> |data| < U64_MAX * DEFAULT_FRAME_SIZE && |before + StreamBytes(l, data)| <= I64_MAX)
      && (r.Ok? ==> r.value == Outcomes(data, AllGood(|data|), |data|, 0, ops))
  {
    hide StreamBytes, Outcomes, Flatten, FrameText, Tiled, Plaintext;
    var w := KeyedStream.New(before, cipher, envelopeHash, noncePrefix);
    var wrote := WritePieces(w, pieces);
    if wrote.Err? {
      return Err(wrote.error);
    }
    if |w.out| > I64_MAX {
      return Err(Overflow);
    }
    var header := KeyedStream.StreamHeader(DEFAULT_FRAME_SIZE, noncePrefix, envelopeHash);
    var reader := ReopenKeyed(w.out, before, cipher, header, Flatten(pieces));
    AllBytesGood(reader);
    var outcomes := Replay(reader, ops);
    r := Ok(outcomes);
  }

  // A written RGXK stream is a stream in one way only, and it reads back.
  lemma KeyedWritten(before: seq<byte>, cipher: Cipher, h: KeyedStream.StreamHeader, data: seq<byte>)
    requires cipher.Lawful() && h.Acceptable() && |data| < U64_MAX * h.frameSize
    ensures var l := KeyedStream.LayoutOf(h, cipher);
      var file, start := before + StreamBytes(l, data), |before| + KeyedStream.HEADER_SIZE;
      && (exists k: nat, plain: nat :: KeyedStream.StreamAt(file, |before|, cipher, h.envelopeHash, h, k, plain))
      && (forall h': KeyedStream.StreamHeader, k: nat, plain: nat ::
            KeyedStream.StreamAt(file, |before|, cipher, h.envelopeHash, h', k, plain)
            ==> h' == h && k * h.frameSize + plain == |data|)
      && Plaintext(file, l, start, |data|) == data
      && Readable(file, l, start, 0, |data|)
  {
    hide StreamBytes, FrameText, Tiled, KeyedStream.DecodeHeader, KeyedStream.EncodeHeader;
    var l := KeyedStream.LayoutOf(h, cipher);
    var file, start := before + StreamBytes(l, data), |before| + KeyedStream.HEADER_SIZE;
    FewFrames(l, data);
    WrittenStreamTiled(before, l, data);
    WrittenStreamReads(before, l, data);
    HeaderInPlace(before, l, data);
    var n, rest := |Blocks(l.frameSize, data)|, |Remainder(l.frameSize, data)|;
    assert KeyedStream.StreamAt(file, |before|, cipher, h.envelopeHash, h, n, rest);
    forall h': KeyedStream.StreamHeader, k: nat, plain: nat
      | KeyedStream.StreamAt(file, |before|, cipher, h.envelopeHash, h', k, plain)
      ensures h' == h && k * h.frameSize + plain == |data|
    {
      KeyedStream.HeaderCodec(l.header, h);
      KeyedStream.HeaderCodec(l.header, h');
      TilingUnique(file, l, start, k, plain, n, rest);
      BlocksOf(l.frameSize, data);
    }
  }

  lemma FewFrames(l: Layout, data: seq<byte>)
    requires l.WellFormed() && |data| < U64_MAX * l.frameSize
    ensures Quot(|data|, l.frameSize) < U64_MAX
  {
    hide Quot, Rem;
    var n := Quot(|data|, l.frameSize);
    assert |data| == n * l.frameSize + Rem(|data|, l.frameSize);
    if n >= U64_MAX {
      Monotone(U64_MAX, n, l.frameSize);
    }
  }

  lemma HeaderInPlace(before: seq<byte>, l: Layout, data: seq<byte>)
    requires l.WellFormed()
    ensures Slice(before + StreamBytes(l, data), |before|, |l.header|) == l.header
  {
    hide SealAll, SealFrame, Blocks, Remainder;
    var blocks := Blocks(l.frameSize, data);
    var tail := SealAll(l, blocks) + SealFrame(l, |blocks|, Remainder(l.frameSize, data), true);
    assert StreamBytes(l, data) == l.header + tail;
    SliceOfMiddle(before, l.header, tail, 0, |l.header|);
    assert before + (l.header + tail) == before + l.header + tail;
  }

  // RGXE: a written stream opens, and reads as the data written.
  method ReopenPrivate(file: seq<byte>, derive: PrivateStream.Derive, password: string,
                       h: PrivateStream.PrivateHeader, ghost data: seq<byte>)
    returns (reader: FramedReader.Reader)
    requires h.Acceptable() && password != "" && |data| < U64_MAX * h.frameSize
    requires derive(password, h).Some? && derive(password, h).value.Lawful()
    requires file == StreamBytes(PrivateStream.LayoutOf(h, derive(password, h).value), data) && |file| <= I64_MAX
    ensures fresh(reader) && reader.Valid() && !reader.bounded && reader.position == 0
    ensures reader.Contents() == data && reader.CanRead(0, |data|)
  {
    hide StreamBytes, FrameText, Tiled;
    PrivateWritten(derive, password, h, data);
    var stream := PrivateStream.Open(file, derive, password);
    reader := stream.value;
  }

  // RGXE: the same under a password; seeks past the end are allowed.
  method PrivateSession(derive: PrivateStream.Derive, password: string, salt: seq<byte>, noncePrefix: seq<byte>,
                        pieces: seq<seq<byte>>, ops: seq<Op>)
    returns (r: Result<seq<Outcome>>)
    requires |salt| == PrivateStream.SALT_SIZE && |noncePrefix| == NONCE_PREFIX_SIZE
    requires var cipher := derive(password, PrivateStream.WriterHeader(salt, noncePrefix));
      cipher.Some? ==> cipher.value.Lawful()
    ensures r.Ok? ==> r.value == Outcomes(Flatten(pieces), AllGood(|Flatten(pieces)|), U64_MAX, 0, ops)
    ensures var h := PrivateStream.WriterHeader(salt, noncePrefix);
      var data := Flatten(pieces);
      r.Ok? <==>
        && password != "" && derive(password, h).Some?
        && |data| < U64_MAX * DEFAULT_FRAME_SIZE
        && |StreamBytes(PrivateStream.LayoutOf(h, derive(password, h).value), data)| <= I64_MAX
  {
    hide StreamBytes, Outcomes, Flatten, FrameText, Tiled, Plaintext;
    if password == "" {
      return Err(InvalidInput);
    }
    var made := PrivateStream.New(derive, password, salt, noncePrefix);
    if made.Err? {
      return Err(made.error);
    }
    var w := made.value;
    var wrote := WritePieces(w, pieces);
    if wrote.Err? {
      return Err(wrote.error);
    }
    assert w.out == StreamBytes(w.layout, Flatten(pieces));
    if |w.out| > I64_MAX {
      return Err(Overflow);
    }
    var header := PrivateStream.WriterHeader(salt, noncePrefix);
    var reader := ReopenPrivate(w.out, derive, password, header, Flatten(pieces));
    AllBytesGood(reader);
    var outcomes := Replay(reader, ops);
    r := Ok(outcomes);
  }

  lemma PrivateWritten(derive: PrivateStream.Derive, password: string, h: PrivateStream.PrivateHeader, data: seq<byte>)
    requires h.Acceptable() && password != "" && |data| < U64_MAX * h.frameSize
    requires derive(password, h).Some? && derive(password, h).value.Lawful()
    ensures var l := PrivateStream.LayoutOf(h, derive(password, h).value);
      var file, start := StreamBytes(l, data), PrivateStream.HEADER_SIZE;
      && (exists k: nat, plain: nat :: PrivateStream.StreamIn(file, derive, password, h, k, plain))
      && (forall h': PrivateStream.PrivateHeader, k: nat, plain: nat ::
            PrivateStream.StreamIn(file, derive, password, h', k, plain)
            ==> h' == h && k * h.frameSize + plain == |data|)
      && Plaintext(file, l, start, |data|) == data
      && Readable(file, l, start, 0, |data|)
  {
    hide StreamBytes, FrameText, Tiled, PrivateStream.DecodeHeader, PrivateStream.EncodeHeader;
    var l := PrivateStream.LayoutOf(h, derive(password, h).value);
    var file, start := StreamBytes(l, data), PrivateStream.HEADER_SIZE;
    assert [] + file == file;
    FewFrames(l, data);
    WrittenStreamTiled([], l, data);
    WrittenStreamReads([], l, data);
    HeaderInPlace([], l, data);
    var n, rest := |Blocks(l.frameSize, data)|, |Remainder(l.frameSize, data)|;
    assert PrivateStream.StreamIn(file, derive, password, h, n, rest);
    forall h': PrivateStream.PrivateHeader, k: nat, plain: nat
      | PrivateStream.StreamIn(file, derive, password, h', k, plain)
      ensures h' == h && k * h.frameSize + plain == |data|
    {
      PrivateStream.HeaderCodec(l.header, h);
      PrivateStream.HeaderCodec(l.header, h');
      TilingUnique(file, l, start, k, plain, n, rest);
      BlocksOf(l.frameSize, data);
    }
  }
}
