/** Bytes, byte order, 32-bit length words and alignment arithmetic shared by the codec modules. */
module Bytes {
  type Byte = b: int | 0 <= b < 256

  const UINT32_MAX: int := 0xFFFF_FFFF
  const SIZE_MAX: int := 0xFFFF_FFFF_FFFF_FFFF

  datatype Option<+T> = None | Some(value: T)

  datatype Endian = Little | Big {
    function Other(): Endian {
      if Little? then Big else Little
    }
  }

  function Larger(x: nat, y: nat): nat {
    if x < y then y else x
  }

  function Zeros(n: nat): (r: seq<Byte>)
    ensures |r| == n
  {
    seq(n, i => 0)
  }

  function Ones(n: nat): (r: seq<Byte>)
    ensures |r| == n
  {
    seq(n, i => 1)
  }

  function Reverse(s: seq<Byte>): (r: seq<Byte>)
    ensures |r| == |s|
    ensures forall i :: 0 <= i < |s| ==> r[i] == s[|s| - 1 - i]
  {
    seq(|s|, i requires 0 <= i < |s| => s[|s| - 1 - i])
  }

  lemma ReverseTwice(s: seq<Byte>)
    ensures Reverse(Reverse(s)) == s
  {
  }

  /** The bytes of a little-endian numeral as they are laid out in byte order `e`, and back. */
  function InOrder(s: seq<Byte>, e: Endian): (r: seq<Byte>)
    ensures |r| == |s|
  {
    if e.Little? then s else Reverse(s)
  }

  lemma InOrderTwice(s: seq<Byte>, e: Endian)
    ensures InOrder(InOrder(s, e), e) == s
  {
    ReverseTwice(s);
  }

  /** Bytes that are in order `e` and get swapped are in the other order. */
  lemma InOrderOther(s: seq<Byte>, e: Endian)
    ensures Reverse(InOrder(s, e)) == InOrder(s, e.Other())
  {
    ReverseTwice(s);
  }

  /** The digits of the low 32 bits of `n`. */
  function Numeral32(n: nat): (r: seq<Byte>)
    ensures |r| == 4
  {
    [n % 256, n / 256 % 256, n / 65536 % 256, n / 16777216 % 256]
  }

  function U32(n: nat, e: Endian): (r: seq<Byte>)
    ensures |r| == 4
  {
    InOrder(Numeral32(n), e)
  }

  function NumeralOf(d: seq<Byte>): (n: nat)
    requires |d| == 4
    ensures n <= UINT32_MAX
  {
    var (d0: int, d1: int, d2: int, d3: int) := (d[0], d[1], d[2], d[3]);
    d0 + 256 * d1 + 65536 * d2 + 16777216 * d3
  }

  function U32Of(s: seq<Byte>, e: Endian): (n: nat)
    requires |s| == 4
    ensures n <= UINT32_MAX
  {
    NumeralOf(InOrder(s, e))
  }

  lemma U32RoundTrip(n: nat, e: Endian)
    requires n <= UINT32_MAX
    ensures U32Of(U32(n, e), e) == n
  {
    InOrderTwice(Numeral32(n), e);
    assert n == n % 256 + 256 * (n / 256);
    assert n / 256 == n / 256 % 256 + 256 * (n / 65536) by { assert n / 256 / 256 == n / 65536; }
    assert n / 65536 == n / 65536 % 256 + 256 * (n / 16777216) by { assert n / 65536 / 256 == n / 16777216; }
  }

  /** The two differ at a byte that both have. */
  ghost predicate Differ(a: seq<Byte>, b: seq<Byte>) {
    exists i :: 0 <= i < |a| && i < |b| && a[i] != b[i]
  }

  lemma DifferLonger(a: seq<Byte>, b: seq<Byte>, a': seq<Byte>, b': seq<Byte>)
    requires Differ(a, b) && a <= a' && b <= b'
    ensures Differ(a', b')
  {
    var i :| 0 <= i < |a| && i < |b| && a[i] != b[i];
    assert a'[i] == a[i] && b'[i] == b[i];
  }

  lemma DifferBehind(p: seq<Byte>, q: seq<Byte>, a: seq<Byte>, b: seq<Byte>)
    requires |p| == |q| && Differ(a, b)
    ensures Differ(p + a, q + b)
  {
    var i :| 0 <= i < |a| && i < |b| && a[i] != b[i];
    assert (p + a)[|p| + i] == a[i] && (q + b)[|p| + i] == b[i];
  }

  lemma NotDifferent(a: seq<Byte>)
    ensures !Differ(a, a)
  {
  }

  // ---------------------------------------------------------------- alignment

  predicate IsAlign(w: nat) {
    w == 1 || w == 2 || w == 4 || w == 8
  }

  /** How many padding bytes bring `off` to a multiple of `w`. */
  function Pad(off: nat, w: nat): (p: nat)
    requires IsAlign(w)
    ensures p < w
  {
    if off % w == 0 then 0 else w - off % w
  }

  lemma PadAligns(off: nat, w: nat)
    requires IsAlign(w)
    ensures (off + Pad(off, w)) % w == 0
  {
  }

  predicate Divides(w: nat, x: int)
    requires IsAlign(w)
  {
    x % w == 0
  }

  lemma MaxAlign(a: nat, b: nat)
    requires IsAlign(a) && IsAlign(b)
    ensures IsAlign(Larger(a, b))
    ensures Larger(a, b) % a == 0 && Larger(a, b) % b == 0
  {
  }

  lemma Chain(x: int)
    ensures x % 8 == 0 ==> x % 4 == 0
    ensures x % 4 == 0 ==> x % 2 == 0
    ensures x % 1 == 0
  {
    if x % 8 == 0 {
      var q := x / 8;
      assert x == 4 * (2 * q);
    }
    if x % 4 == 0 {
      var q := x / 4;
      assert x == 2 * (2 * q);
    }
  }

  /** An integer is a multiple of the larger of two alignments exactly when it is one of both. */
  lemma MultipleOfMax(x: int, a: nat, b: nat)
    requires IsAlign(a) && IsAlign(b)
    ensures IsAlign(Larger(a, b))
    ensures Divides(Larger(a, b), x) <==> Divides(a, x) && Divides(b, x)
  {
    Chain(x);
    if a == 1 {} else if a == 2 {} else if a == 4 {} else {}
  }

  lemma ModEight(x: nat, w: nat)
    requires IsAlign(w)
    ensures (x % 8) % w == x % w
  {
    ModEightLiteral(x);
    if w == 1 {} else if w == 2 {} else if w == 4 {} else {}
  }

  lemma ModEightLiteral(x: nat)
    ensures (x % 8) % 2 == x % 2
    ensures (x % 8) % 4 == x % 4
  {
    var q, r := x / 8, x % 8;
    assert x == 2 * (4 * q) + r;
    assert x == 4 * (2 * q) + r;
  }

  /** Reducing modulo 8, moving on by `p` and reducing again keeps the residue of every alignment. */
  lemma WrappedStep(x: nat, p: nat, w: nat)
    requires IsAlign(w)
    ensures ((x % 8 + p) % 8) % w == (x + p) % w
  {
    assert (x % 8 + p) % 8 == (x + p) % 8;
    ModEight(x + p, w);
  }

  lemma SameResidue(x: int, y: int, w: nat)
    requires IsAlign(w)
    ensures (y - x) % w == 0 <==> x % w == y % w
  {
  }

  lemma MultipleTimes(x: int, k: int, w: nat)
    requires IsAlign(w) && x % w == 0
    ensures (k * x) % w == 0
  {
    var q := x / w;
    assert x == q * w;
    assert k * x == (k * q) * w by {
      assert k * (q * w) == (k * q) * w;
    }
    if w == 1 {} else if w == 2 {} else if w == 4 {} else {}
  }

  lemma PadMonotone(x: nat, y: nat, w: nat)
    requires IsAlign(w) && x <= y
    ensures x + Pad(x, w) <= y + Pad(y, w)
  {
  }
}
