// The library functions the archive engine relies on, and the only facts
// assumed about them.
module Primitives {
  import opened Bytes
  import opened Format
  import opened Paths
  import Chunker

  datatype Primitives = Primitives(
    gear: Chunker.Gear,
    hash: seq<byte> -> Digest,
    compress: (nat, seq<byte>) -> Option<seq<byte>>,
    decompress: (seq<byte>, nat) -> Option<seq<byte>>,
    utf8: seq<byte> -> bool)
  {
    // Compression is never empty and is undone by decompression to the known
    // size; joining text with '/' gives text. The hash may collide: where
    // that matters it is assumed injective on the chunks of one run only.
    ghost predicate Lawful() {
      && (forall level, data :: compress(level, data).Some? ==>
            && compress(level, data).value != []
            && decompress(compress(level, data).value, |data|) == Some(data))
      && (forall a, b :: utf8(a) && utf8(b) ==> utf8(a + [SLASH] + b))
    }

    ghost predicate InjectiveOn(chunks: set<seq<byte>>) {
      forall a, b :: a in chunks && b in chunks && hash(a) == hash(b) ==> a == b
    }
  }
}
