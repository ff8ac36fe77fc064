// The buffering frame writer: KeyedWriter and EncryptedWriter are this machine
// with different headers.
module FramedWriter {
  import opened Bytes
  import opened Sequences
  import opened FramedStream

  class Writer {
    const layout: Layout
    var out: seq<byte>
    var buffer: seq<byte>
    var sequence: nat
    var finished: bool
    // What the file held before the stream, the plaintext accepted so far and
    // the full blocks already emitted.
    ghost const prefix: seq<byte>
    ghost var written: seq<byte>
    ghost var blocks: seq<seq<byte>>

    ghost predicate Valid()
      reads this
    {
      && layout.WellFormed()
      && AllSized(blocks, layout.frameSize)
      && (!finished ==>
          && |buffer| < layout.frameSize
          && sequence == |blocks| <= U64_MAX
          && written == Flatten(blocks) + buffer
          && out == prefix + layout.header + SealAll(layout, blocks))
      && (finished ==> out == prefix + StreamBytes(layout, written))
    }

    constructor (layout: Layout, before: seq<byte>)
      requires layout.WellFormed()
      ensures Valid() && !finished && written == []
      ensures this.layout == layout && prefix == before
    {
      this.layout := layout;
      out := before + layout.header;
      buffer := [];
      sequence := 0;
      finished := false;
      prefix := before;
      written := [];
      blocks := [];
    }

    // Seals the buffer as the next frame. The frame is in the file even when
    // the sequence number cannot be advanced afterwards.
    method Emit(last: bool) returns (r: Result<()>)
      requires layout.WellFormed() && sequence <= U64_MAX && |buffer| <= layout.frameSize
      modifies this
      ensures out == old(out) + SealFrame(layout, old(sequence), old(buffer), last)
      ensures finished == old(finished) && written == old(written) && blocks == old(blocks)
      ensures r.Ok? <==> old(sequence) < U64_MAX
      ensures r.Ok? ==> sequence == old(sequence) + 1 && buffer == []
    {
      if |buffer| > U32_MAX {
        return Err(Overflow);
      }
      if |buffer| > layout.frameSize {
        return Err(BadFrame);
      }
      if |buffer| + TAG_SIZE > U32_MAX {
        return Err(Overflow);
      }
      var header := EncodeFrameHeader(layout.frameMagic,
                                      FrameInfo(sequence, |buffer|, |buffer| + TAG_SIZE, last));
      var sealed := layout.cipher.seal(Nonce(layout, sequence), layout.header + header, buffer);
      out := out + header;
      out := out + sealed;
      if sequence + 1 > U64_MAX {
        return Err(Overflow);
      }
      sequence := sequence + 1;
      buffer := [];
      r := Ok(());
    }

    // One turn of the write loop: fills the buffer and emits it when full.
    method Fill(part: seq<byte>) returns (r: Result<()>)
      requires Valid() && !finished && |buffer| + |part| <= layout.frameSize
      modifies this
      ensures !finished
      ensures r.Ok? <==> |old(written)| + |part| < (U64_MAX + 1) * layout.frameSize
      ensures r.Ok? ==> Valid() && written == old(written) + part
    {
      hide SealFrame, StreamBytes, ToLE;
      Room(blocks, buffer, layout.frameSize);
      buffer := buffer + part;
      written := written + part;
      assert written == Flatten(blocks) + buffer;
      if |buffer| == layout.frameSize {
        ghost var longer := blocks + [buffer];
        FlattenSnoc(blocks, buffer);
        Room(longer, [], layout.frameSize);
        assert written == Flatten(longer) + [];
        assert longer[..|blocks|] == blocks;
        var emitted := Emit(false);
        if emitted.Err? {
          return Err(emitted.error);
        }
        blocks := longer;
      } else {
        Room(blocks, buffer, layout.frameSize);
      }
      r := Ok(());
    }

    // Accepts all of `data`, or fails because the 64-bit frame numbers ran out.
    method Write(data: seq<byte>) returns (r: Result<nat>)
      requires Valid()
      modifies this
      ensures finished == old(finished)
      ensures r.Ok? <==> !old(finished) && |old(written)| + |data| < (U64_MAX + 1) * layout.frameSize
      ensures r.Ok? ==> Valid() && written == old(written) + data && r.value == |data|
    {
      hide SealFrame, StreamBytes, ToLE;
      if finished {
        return Err(Finished);
      }
      var original := |data|;
      var rest := data;
      Room(blocks, buffer, layout.frameSize);
      while rest != []
        invariant Valid() && !finished
        invariant written + rest == old(written) + data
        invariant |written| < (U64_MAX + 1) * layout.frameSize
        decreases |rest|
      {
        var take := Min(layout.frameSize - |buffer|, |rest|);
        ghost var before, text := written, rest;
        var filled := Fill(rest[..take]);
        rest := rest[take..];
        assert text == text[..take] + rest;
        if filled.Err? {
          assert |before| + |text| == |old(written)| + |data|;
          return Err(filled.error);
        }
        assert written + rest == before + text;
      }
      r := Ok(original);
    }

    method Finish() returns (r: Result<()>)
      requires Valid()
      modifies this
      ensures r.Ok? <==> old(finished) || |old(written)| < U64_MAX * layout.frameSize
      ensures r.Ok? ==> Valid() && finished && written == old(written)
      ensures r.Ok? ==> out == prefix + StreamBytes(layout, written)
    {
      hide SealFrame, ToLE;
      if !finished {
        Room(blocks, buffer, layout.frameSize);
        BlocksUnique(layout.frameSize, blocks, buffer);
        var emitted := Emit(true);
        if emitted.Err? {
          return Err(emitted.error);
        }
        finished := true;
      }
      r := Ok(());
    }
  }

  // The 64-bit frame numbers suffice exactly for this many bytes.
  lemma Room(blocks: seq<seq<byte>>, buffer: seq<byte>, size: nat)
    requires size > 0 && AllSized(blocks, size) && |buffer| < size
    ensures |blocks| <= U64_MAX <==> |Flatten(blocks) + buffer| < (U64_MAX + 1) * size
    ensures |blocks| < U64_MAX <==> |Flatten(blocks) + buffer| < U64_MAX * size
  {
    SizedTotal(blocks, size);
    Fits(|blocks|, |buffer|, size, U64_MAX);
    Fits(|blocks|, |buffer|, size, U64_MAX - 1);
  }

  lemma Fits(n: nat, r: nat, size: nat, limit: nat)
    requires r < size
    ensures n <= limit <==> n * size + r < (limit + 1) * size
  {
    if n <= limit {
      Monotone(n + 1, limit + 1, size);
    } else {
      Monotone(limit + 1, n, size);
    }
  }
}
