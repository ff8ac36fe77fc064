// Where an inner archive is read from: the bytes of a plain file, or the
// plaintext of an RGXE or RGXK stream.
module Sources {
  import opened Bytes
  import opened FramedReader

  class Source {
    const raw: seq<byte>
    const framed: Reader?
    var rawPosition: nat
    // The archive bytes, whether every one of them authenticates, how far a
    // seek may go, and the current offset.
    ghost const data: seq<byte>
    ghost const authentic: bool
    ghost const limit: nat
    ghost var position: nat

    // The objects whose fields a read or a seek may change.
    ghost function Repr(): set<object> {
      if framed == null then {this} else {this, framed}
    }

    ghost predicate Valid()
      reads this, framed
    {
      && |data| <= U64_MAX && |data| <= limit
      && if framed == null then
           data == raw && authentic && limit == U64_MAX && rawPosition == position <= U64_MAX
         else
           && framed.Valid()
           && data == framed.Contents()
           && (authentic <==> framed.CanRead(0, framed.plaintextLen))
           && limit == framed.SeekLimit()
           && position == framed.position
    }

    // Can the bytes from..to be read? Those of a plain file always can.
    ghost predicate CanRead(from: nat, to: nat)
      requires framed != null ==> framed.layout.WellFormed()
    {
      framed == null || framed.CanRead(from, to)
    }

    constructor Plain(file: seq<byte>)
      requires |file| <= I64_MAX
      ensures Valid() && Repr() == {this} && position == 0
      ensures data == file && authentic && limit == U64_MAX
    {
      raw := file;
      framed := null;
      rawPosition := 0;
      data := file;
      authentic := true;
      limit := U64_MAX;
      position := 0;
    }

    constructor Framed(reader: Reader)
      requires reader.Valid()
      ensures Valid() && Repr() == {this, reader} && position == reader.position
      ensures data == reader.Contents() && limit == reader.SeekLimit()
      ensures authentic <==> reader.CanRead(0, reader.plaintextLen)
    {
      raw := [];
      framed := reader;
      rawPosition := 0;
      data := reader.Contents();
      authentic := reader.CanRead(0, reader.plaintextLen);
      limit := reader.SeekLimit();
      position := reader.position;
    }

    // At most n bytes from the current position; fewer only at the end.
    method Read(n: nat) returns (r: Result<seq<byte>>)
      requires Valid()
      modifies Repr()
      ensures Valid()
      ensures r.Ok? ==> r.value == Window(data, old(position), n) && position == old(position) + |r.value|
      ensures r.Ok? <==> CanRead(old(position), old(position) + |Window(data, old(position), n)|)
      ensures authentic ==> r.Ok?
    {
      hide Reader.Valid, Reader.Contents;
      if framed == null {
        var got := Window(raw, rawPosition, n);
        rawPosition := rawPosition + |got|;
        position := rawPosition;
        r := Ok(got);
      } else {
        r := framed.Read(n);
        position := framed.position;
      }
    }

    // Exactly n bytes, or an error when fewer are left or one of them cannot be
    // read.
    method ReadExact(n: nat) returns (r: Result<seq<byte>>)
      requires Valid() && n > 0
      modifies Repr()
      ensures Valid()
      ensures r.Ok? ==>
        && old(position) + n <= |data|
        && r.value == data[old(position)..old(position) + n]
        && position == old(position) + n
      ensures r.Ok? <==> old(position) + n <= |data| && CanRead(old(position), old(position) + n)
      ensures authentic && old(position) + n <= |data| ==> r.Ok?
    {
      hide Reader.Valid, Reader.Contents, Reader.CanRead;
      var got := Read(n);
      if got.Err? {
        return Err(got.error);
      }
      if |got.value| < n {
        return Err(Truncated);
      }
      r := got;
    }

    // Plain files and RGXE streams may be left past their end, RGXK may not.
    method Seek(from: SeekFrom) returns (r: Result<nat>)
      requires Valid()
      modifies Repr()
      ensures Valid()
      ensures var target := SeekTarget(from, old(position), |data|, limit);
        && (r.Ok? <==> target.Some?)
        && (r.Ok? ==> r.value == position == target.value)
        && (r.Err? ==> position == old(position))
    {
      hide Reader.Valid, Reader.Contents, Reader.CanRead;
      if framed == null {
        var target := SeekTarget(from, rawPosition, |raw|, U64_MAX);
        if target.None? {
          return Err(BadSeek);
        }
        rawPosition := target.value;
        position := rawPosition;
        r := Ok(rawPosition);
      } else {
        r := framed.Seek(from);
        position := framed.position;
      }
    }

    method StreamPosition() returns (p: nat)
      requires Valid()
      ensures p == position
    {
      if framed == null {
        p := rawPosition;
      } else {
        p := framed.position;
      }
    }
  }
}
