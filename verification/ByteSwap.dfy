/** The byte swaps of the reader on machine words are reversals of the bytes that the words have in memory. */
module ByteSwap {
  import opened Bytes

  function Swap16(u: bv16): bv16 {
    (u >> 8) | (u << 8)
  }

  function Swap32(u: bv32): bv32 {
    (u >> 24) | ((u & 0x00ff0000) >> 8) | ((u & 0x0000ff00) << 8) | (u << 24)
  }

  function Swap64(u: bv64): bv64 {
    (u >> 56)
    | ((u & 0x00ff000000000000) >> 40)
    | ((u & 0x0000ff0000000000) >> 24)
    | ((u & 0x000000ff00000000) >> 8)
    | ((u & 0x00000000ff000000) << 8)
    | ((u & 0x0000000000ff0000) << 24)
    | ((u & 0x000000000000ff00) << 40)
    | (u << 56)
  }

  // The digits of a word, the least significant one first.

  function Digits16(u: bv16): (r: seq<bv8>)
    ensures |r| == 2
  {
    [(u & 0xff) as bv8, (u >> 8) as bv8]
  }

  function Digits32(u: bv32): (r: seq<bv8>)
    ensures |r| == 4
  {
    [(u & 0xff) as bv8, ((u >> 8) & 0xff) as bv8, ((u >> 16) & 0xff) as bv8, (u >> 24) as bv8]
  }

  function Digits64(u: bv64): (r: seq<bv8>)
    ensures |r| == 8
  {
    [(u & 0xff) as bv8, ((u >> 8) & 0xff) as bv8, ((u >> 16) & 0xff) as bv8, ((u >> 24) & 0xff) as bv8,
     ((u >> 32) & 0xff) as bv8, ((u >> 40) & 0xff) as bv8, ((u >> 48) & 0xff) as bv8, (u >> 56) as bv8]
  }

  /** A word with these digits as it lies in the memory of a machine. */
  function InMemory(digits: seq<bv8>, native: Endian): seq<Byte> {
    InOrder(seq(|digits|, i requires 0 <= i < |digits| => digits[i] as int), native)
  }

  lemma Reversed(d: seq<bv8>, d': seq<bv8>, native: Endian)
    requires |d| == |d'| && forall i :: 0 <= i < |d| ==> d'[i] == d[|d| - 1 - i]
    ensures InMemory(d', native) == Reverse(InMemory(d, native))
  {
  }

  /** Swapping a word reverses its bytes in memory, on either kind of machine. */
  lemma SwapReverses(u: bv16, v: bv32, w: bv64, native: Endian)
    ensures InMemory(Digits16(Swap16(u)), native) == Reverse(InMemory(Digits16(u), native))
    ensures InMemory(Digits32(Swap32(v)), native) == Reverse(InMemory(Digits32(v), native))
    ensures InMemory(Digits64(Swap64(w)), native) == Reverse(InMemory(Digits64(w), native))
  {
    hide Swap16, Swap32, Swap64, Digits16, Digits32, Digits64, InMemory, Reverse;
    Digits16Swapped(u);
    Digits32Swapped(v);
    Digits64Swapped(w);
    Reversed(Digits16(u), Digits16(Swap16(u)), native);
    Reversed(Digits32(v), Digits32(Swap32(v)), native);
    Reversed(Digits64(w), Digits64(Swap64(w)), native);
  }

  lemma Digits16Swapped(u: bv16)
    ensures var d, d' := Digits16(u), Digits16(Swap16(u)); d' == [d[1], d[0]]
  {
  }

  lemma Digits32Swapped(v: bv32)
    ensures var d, d' := Digits32(v), Digits32(Swap32(v)); d' == [d[3], d[2], d[1], d[0]]
  {
  }

  lemma Digits64Swapped(w: bv64)
    ensures var d, d' := Digits64(w), Digits64(Swap64(w)); d' == [d[7], d[6], d[5], d[4], d[3], d[2], d[1], d[0]]
  {
  }
}
