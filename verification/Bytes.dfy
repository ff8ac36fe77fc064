// Bytes, machine-width bounds, little-endian integers and the result types
// shared by every other module.
module Bytes {

  newtype byte = b: int | 0 <= b < 256

  const U16_MAX: nat := 0xFFFF
  const U32_MAX: nat := 0xFFFF_FFFF
  const U64_MAX: nat := 0xFFFF_FFFF_FFFF_FFFF
  const I64_MAX: nat := 0x7FFF_FFFF_FFFF_FFFF

  datatype Option<+T> = None | Some(value: T) {
    predicate IsFailure() { None? }
    function PropagateFailure<U>(): Option<U> requires None? { None }
    function Extract(): T requires Some? { value }
  }

  // The reasons for which an operation is refused.
  datatype Error =
    | InvalidInput
    | Overflow
    | Truncated
    | BadMagic
    | BadVersion
    | BadHeader
    | BadFrame
    | BadSeek
    | BadPath
    | BadChunk
    | BadRecord
    | BadStatistics
    | Duplicate
    | Missing
    | Trailing
    | Authentication
    | Corrupt
    | Unsupported
    | Finished
    | Exists

  datatype Result<+T> = Ok(value: T) | Err(error: Error) {
    predicate IsFailure() { Err? }
    function PropagateFailure<U>(): Result<U> requires Err? { Err(error) }
    function Extract(): T requires Ok? { value }
  }

  function CheckedAdd(a: nat, b: nat): Option<nat> {
    if a + b <= U64_MAX then Some(a + b) else None
  }

  function Min(a: nat, b: nat): nat {
    if a <= b then a else b
  }

  // At most n bytes of s from offset `at`; nothing past the end.
  function Window(s: seq<byte>, at: nat, n: nat): seq<byte> {
    if at >= |s| then [] else s[at..at + Min(n, |s| - at)]
  }

  // 256 to the power `width`: one more than the largest `width`-byte integer.
  function Pow256(width: nat): (r: nat)
    ensures r > 0
  {
    if width == 0 then 1 else 256 * Pow256(width - 1)
  }

  // The `width` low-order bytes of n, least significant first.
  function ToLE(n: nat, width: nat): (s: seq<byte>)
    ensures |s| == width
  {
    if width == 0 then [] else [(n % 256) as byte] + ToLE(n / 256, width - 1)
  }

  function FromLE(s: seq<byte>): nat {
    if s == [] then 0 else s[0] as int + 256 * FromLE(s[1..])
  }

  lemma Widths()
    ensures Pow256(1) == 256
    ensures Pow256(2) == U16_MAX + 1
    ensures Pow256(4) == U32_MAX + 1
    ensures Pow256(8) == U64_MAX + 1
  {
    assert Pow256(3) == 256 * Pow256(2);
    assert Pow256(4) == 256 * Pow256(3);
    assert Pow256(5) == 256 * Pow256(4);
    assert Pow256(6) == 256 * Pow256(5);
    assert Pow256(7) == 256 * Pow256(6);
    assert Pow256(8) == 256 * Pow256(7);
  }

  lemma {:induction false} FromToLE(n: nat, width: nat)
    requires n < Pow256(width)
    ensures FromLE(ToLE(n, width)) == n
  {
    if width > 0 {
      FromToLE(n / 256, width - 1);
      assert ToLE(n, width)[1..] == ToLE(n / 256, width - 1);
    }
  }

  lemma {:induction false} ToFromLE(s: seq<byte>)
    ensures FromLE(s) < Pow256(|s|)
    ensures ToLE(FromLE(s), |s|) == s
  {
    if s != [] {
      ToFromLE(s[1..]);
      assert FromLE(s) / 256 == FromLE(s[1..]);
      assert s == [s[0]] + s[1..];
    }
  }

  lemma LE32(n: nat)
    requires n <= U32_MAX
    ensures FromLE(ToLE(n, 4)) == n
  {
    Widths();
    FromToLE(n, 4);
  }

  lemma LE64(n: nat)
    requires n <= U64_MAX
    ensures FromLE(ToLE(n, 8)) == n
  {
    Widths();
    FromToLE(n, 8);
  }
}
