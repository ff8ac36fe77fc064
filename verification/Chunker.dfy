// The rolling hash and the content-defined chunking it drives.
module Chunker {
  import opened Bytes

  const MIN_CHUNK_SIZE: nat := 65536
  const MAX_CHUNK_SIZE: nat := 1048576
  const WINDOW_SIZE: nat := 64
  const BOUNDARY_MASK: bv64 := 0x3FFFF

  // The per-byte word mixed into the hash; any function will do.
  type Gear = byte -> Word

  // A 64-bit hash word. The wrapper keeps bit-vector reasoning out of the
  // proofs about sequences.
  datatype Word = Word(bits: bv64)

  const ZERO := Word(0)

  function Xor(x: Word, y: Word): Word {
    Word(x.bits ^ y.bits)
  }

  function RotateOne(x: Word): Word {
    Word((x.bits << 1) | (x.bits >> 63))
  }

  function Rotate(x: Word, n: nat): Word {
    if n == 0 then x else RotateOne(Rotate(x, n - 1))
  }

  // The hash of a window from scratch: the XOR of the gear words of its bytes,
  // each rotated by its distance from the end.
  function WindowHash(gear: Gear, window: seq<byte>): Word {
    if window == [] then ZERO
    else Xor(Rotate(gear(window[0]), |window| - 1), WindowHash(gear, window[1..]))
  }

  function LastWindow(history: seq<byte>): (w: seq<byte>)
    ensures |w| == Min(|history|, WINDOW_SIZE)
  {
    if |history| <= WINDOW_SIZE then history else history[|history| - WINDOW_SIZE..]
  }

  function StateAfter(gear: Gear, history: seq<byte>): Word {
    WindowHash(gear, LastWindow(history))
  }

  predicate ShouldCut(state: Word, len: nat) {
    len >= MAX_CHUNK_SIZE || (len >= MIN_CHUNK_SIZE && state.bits & BOUNDARY_MASK == 0)
  }

  // ---------------------------------------------------------------- rotation

  lemma RotateOneXor(x: Word, y: Word)
    ensures RotateOne(Xor(x, y)) == Xor(RotateOne(x), RotateOne(y))
  {
  }

  lemma XorAssociates(x: Word, y: Word, z: Word)
    ensures Xor(x, Xor(y, z)) == Xor(Xor(x, y), z)
  {
  }

  lemma XorCancels(x: Word, y: Word)
    ensures Xor(Xor(y, x), y) == x
  {
  }

  lemma XorZero(x: Word)
    ensures Xor(ZERO, x) == Xor(x, ZERO) == x
    ensures RotateOne(ZERO) == ZERO
  {
  }

  lemma {:induction false} RotateSplit(x: Word, a: nat, b: nat)
    ensures Rotate(x, a + b) == Rotate(Rotate(x, a), b)
  {
    if b > 0 {
      RotateSplit(x, a, b - 1);
    }
  }

  // Rotation by a power of two, as two shifts.
  function Turn2(x: Word): Word { Word((x.bits << 2) | (x.bits >> 62)) }
  function Turn4(x: Word): Word { Word((x.bits << 4) | (x.bits >> 60)) }
  function Turn8(x: Word): Word { Word((x.bits << 8) | (x.bits >> 56)) }
  function Turn16(x: Word): Word { Word((x.bits << 16) | (x.bits >> 48)) }
  function Turn32(x: Word): Word { Word((x.bits << 32) | (x.bits >> 32)) }

  lemma Double2(x: Word)
    ensures RotateOne(RotateOne(x)) == Turn2(x)
  {
  }

  lemma Double4(x: Word)
    ensures Turn2(Turn2(x)) == Turn4(x)
  {
  }

  lemma Double8(x: Word)
    ensures Turn4(Turn4(x)) == Turn8(x)
  {
  }

  lemma Double16(x: Word)
    ensures Turn8(Turn8(x)) == Turn16(x)
  {
  }

  lemma Double32(x: Word)
    ensures Turn16(Turn16(x)) == Turn32(x)
  {
  }

  lemma Double64(x: Word)
    ensures Turn32(Turn32(x)) == x
  {
  }

  lemma RotateBy2(x: Word)
    ensures Rotate(x, 2) == Turn2(x)
  {
    Double2(x);
    assert Rotate(x, 1) == RotateOne(Rotate(x, 0));
  }

  lemma RotateBy4(x: Word)
    ensures Rotate(x, 4) == Turn4(x)
  {
    RotateSplit(x, 2, 2);
    RotateBy2(x);
    RotateBy2(Turn2(x));
    Double4(x);
  }

  lemma RotateBy8(x: Word)
    ensures Rotate(x, 8) == Turn8(x)
  {
    RotateSplit(x, 4, 4);
    RotateBy4(x);
    RotateBy4(Turn4(x));
    Double8(x);
  }

  lemma RotateBy16(x: Word)
    ensures Rotate(x, 16) == Turn16(x)
  {
    RotateSplit(x, 8, 8);
    RotateBy8(x);
    RotateBy8(Turn8(x));
    Double16(x);
  }

  lemma RotateBy32(x: Word)
    ensures Rotate(x, 32) == Turn32(x)
  {
    RotateSplit(x, 16, 16);
    RotateBy16(x);
    RotateBy16(Turn16(x));
    Double32(x);
  }

  // Sixty-four one-bit rotations of a 64-bit word change nothing.
  lemma RotateFullTurn(x: Word)
    ensures Rotate(x, WINDOW_SIZE) == x
  {
    RotateSplit(x, 32, 32);
    RotateBy32(x);
    RotateBy32(Turn32(x));
    Double64(x);
  }

  // ------------------------------------------------------------ rolling form

  lemma {:induction false} WindowHashPush(gear: Gear, w: seq<byte>, b: byte)
    ensures WindowHash(gear, w + [b]) == Xor(RotateOne(WindowHash(gear, w)), gear(b))
  {
    hide RotateOne, Xor;
    if w == [] {
      assert ([b])[1..] == [];
      assert WindowHash(gear, [b]) == Xor(Rotate(gear(b), 0), ZERO);
      XorZero(gear(b));
    } else {
      var lead := Rotate(gear(w[0]), |w| - 1);
      assert (w + [b])[1..] == w[1..] + [b];
      WindowHashPush(gear, w[1..], b);
      RotateOneXor(lead, WindowHash(gear, w[1..]));
      assert Rotate(gear(w[0]), |w|) == RotateOne(lead);
      XorAssociates(RotateOne(lead), RotateOne(WindowHash(gear, w[1..])), gear(b));
    }
  }

  // What one push does to the recomputed state: below a full window the new
  // byte is mixed in; from then on the byte leaving the window cancels out.
  lemma StateStep(gear: Gear, history: seq<byte>, b: byte)
    ensures var mixed := Xor(RotateOne(StateAfter(gear, history)), gear(b));
      StateAfter(gear, history + [b]) ==
        if |history| < WINDOW_SIZE then mixed
        else Xor(mixed, gear(history[|history| - WINDOW_SIZE]))
  {
    hide RotateOne, Xor;
    var w := LastWindow(history);
    WindowHashPush(gear, w, b);
    if |history| < WINDOW_SIZE {
      assert LastWindow(history + [b]) == w + [b];
    } else {
      var full := w + [b];
      assert LastWindow(history + [b]) == full[1..];
      RotateFullTurn(gear(w[0]));
      assert WindowHash(gear, full) == Xor(Rotate(gear(w[0]), WINDOW_SIZE), WindowHash(gear, full[1..]));
      XorCancels(WindowHash(gear, full[1..]), gear(w[0]));
    }
  }

  // The state depends on the last 64 bytes only.
  lemma StateForgets(gear: Gear, before: seq<byte>, recent: seq<byte>)
    requires |recent| >= WINDOW_SIZE
    ensures StateAfter(gear, before + recent) == StateAfter(gear, recent)
  {
    assert LastWindow(before + recent) == LastWindow(recent);
  }

  // The place in the circular window of the n-th byte pushed.
  function Slot(n: nat): (k: nat)
    ensures k < WINDOW_SIZE
  {
    n % WINDOW_SIZE
  }

  lemma SlotSteps(n: nat)
    ensures Slot(0) == 0
    ensures Slot(n + 1) == (Slot(n) + 1) % WINDOW_SIZE
    ensures n >= WINDOW_SIZE ==> Slot(n - WINDOW_SIZE) == Slot(n)
    ensures forall j: nat {:trigger Slot(j)} :: n - WINDOW_SIZE < j < n ==> Slot(j) != Slot(n)
  {
  }

  // Each of the last 64 bytes sits in its own slot of the window.
  ghost predicate Circular(window: seq<byte>, history: seq<byte>) {
    && |window| == WINDOW_SIZE
    && forall j: nat :: |history| - WINDOW_SIZE <= j < |history| ==> window[Slot(j)] == history[j]
  }

  lemma CircularPush(window: seq<byte>, history: seq<byte>, b: byte)
    requires Circular(window, history)
    ensures Circular(window[Slot(|history|) := b], history + [b])
    ensures |history| >= WINDOW_SIZE ==> window[Slot(|history|)] == history[|history| - WINDOW_SIZE]
    ensures Slot(|history| + 1) == (Slot(|history|) + 1) % WINDOW_SIZE
  {
    hide Slot;
    SlotSteps(|history|);
  }

  // The hasher of one file. `history` is every byte pushed so far.
  class RollingHash {
    const gear: Gear
    var state: Word
    const window: array<byte>
    var position: nat
    var filled: nat
    ghost var history: seq<byte>

    ghost predicate Valid()
      reads this, window
    {
      && window.Length == WINDOW_SIZE
      && filled == Min(|history|, WINDOW_SIZE)
      && position == Slot(|history|)
      && state == StateAfter(gear, history)
      && Circular(window[..], history)
    }

    constructor (gear: Gear)
      ensures Valid() && fresh(window)
      ensures this.gear == gear && history == []
    {
      this.gear := gear;
      state := ZERO;
      window := new byte[WINDOW_SIZE](_ => 0);
      position := 0;
      filled := 0;
      history := [];
    }

    method Push(b: byte) returns (r: Word)
      requires Valid()
      modifies this, window
      ensures Valid()
      ensures history == old(history) + [b]
      ensures r == StateAfter(gear, history)
    {
      hide RotateOne, Xor, Slot, StateAfter, Circular;
      StateStep(gear, history, b);
      CircularPush(window[..], history, b);
      ghost var next := window[..][position := b];
      if filled < WINDOW_SIZE {
        state := Xor(RotateOne(state), gear(b));
        window[position] := b;
        position := (position + 1) % WINDOW_SIZE;
        filled := filled + 1;
        history := history + [b];
        assert window[..] == next;
        return state;
      }
      var outgoing := window[position];
      window[position] := b;
      position := (position + 1) % WINDOW_SIZE;
      state := Xor(Xor(RotateOne(state), gear(b)), Rotate(gear(outgoing), WINDOW_SIZE % 64));
      history := history + [b];
      assert window[..] == next;
      r := state;
    }
  }
}
