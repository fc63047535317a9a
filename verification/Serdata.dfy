/** Serialized samples as the DDS stack holds them: buffers with padding, reassembly, keys and key hashes. */
module Serdata {
  import opened Bytes
  import opened Types
  import opened Writer
  import opened CdrWriter
  import opened KeyReader

  const WORDS: nat := 0x4000_0000_0000_0000

  /** `(0 - n) % 4` in unsigned 64-bit arithmetic. */
  function PaddingFor(n: nat): (p: nat)
    ensures p < 4
  {
    (SIZE_MAX + 1 - n % (SIZE_MAX + 1)) % (SIZE_MAX + 1) % 4
  }

  /** The wrap-around does no harm, because 4 divides the word size. */
  lemma PaddingCompletes(n: nat)
    ensures PaddingFor(n) == Pad(n, 4)
  {
    var q, r := n / (SIZE_MAX + 1), n % (SIZE_MAX + 1);
    assert n == 4 * (q * WORDS) + r;
    ModFour(q * WORDS, r);
    var d := SIZE_MAX + 1 - r;
    if r > 0 {
      assert d % (SIZE_MAX + 1) == d;
      assert d == 4 * WORDS - r;
      ModFour(WORDS - r, 3 * r);
    }
  }

  lemma ModFour(x: int, r: int)
    ensures (4 * x + r) % 4 == r % 4
  {
  }

  // ---------------------------------------------------------------- fragments

  /** Bytes `min` up to `maxp1` of a payload. */
  datatype Fragment = Fragment(min: nat, maxp1: nat, payload: seq<Byte>)

  predicate ValidFragment(f: Fragment) {
    f.min <= f.maxp1 && |f.payload| == f.maxp1 - f.min
  }

  /** How far the first `n` fragments reach. */
  function Reached(frags: seq<Fragment>, n: nat): nat
    requires n <= |frags|
  {
    if n == 0 then 0 else Larger(Reached(frags, n - 1), frags[n - 1].maxp1)
  }

  /** Every fragment begins inside or right behind what the ones before it reach, so the first one begins at 0. */
  predicate Gapless(frags: seq<Fragment>) {
    forall i :: 0 <= i < |frags| ==> ValidFragment(frags[i]) && frags[i].min <= Reached(frags, i)
  }

  /** What the first `n` fragments assemble to: each adds only what lies behind the ones before it. */
  function Assembled(frags: seq<Fragment>, n: nat): (r: seq<Byte>)
    requires Gapless(frags) && n <= |frags|
    ensures |r| == Reached(frags, n)
  {
    if n == 0 then []
    else
      var p, f := Assembled(frags, n - 1), frags[n - 1];
      if f.maxp1 > |p| then p + f.payload[|p| - f.min..] else p
  }

  lemma {:induction false} ReachedMonotone(frags: seq<Fragment>, i: nat, n: nat)
    requires i <= n <= |frags|
    ensures Reached(frags, i) <= Reached(frags, n)
    ensures i < n ==> frags[i].maxp1 <= Reached(frags, n)
    decreases n
  {
    if i < n {
      ReachedMonotone(frags, i, n - 1);
    }
  }

  lemma ByteAssembled(frags: seq<Fragment>, n: nat, j: nat)
    requires Gapless(frags) && 0 < n <= |frags| && j < Reached(frags, n)
    ensures var p, f := Assembled(frags, n - 1), frags[n - 1];
            if j < |p| then Assembled(frags, n)[j] == p[j]
            else f.min <= j < f.maxp1 && |f.payload| == f.maxp1 - f.min
                 && Assembled(frags, n)[j] == f.payload[j - f.min]
  {
    hide Assembled, Gapless, Reached;
    var p, f := Assembled(frags, n - 1), frags[n - 1];
    AssembledStep(frags, n - 1);
    if j >= |p| {
      var q := f.payload[|p| - f.min..];
      assert (p + q)[j] == q[j - |p|] == f.payload[j - f.min];
    }
  }

  /** Byte `j` comes from the first fragment that reaches beyond it. */
  lemma {:induction false} FirstFragmentWins(frags: seq<Fragment>, n: nat, j: nat) returns (k: nat)
    requires Gapless(frags) && n <= |frags| && j < Reached(frags, n)
    ensures k < n && Reached(frags, k) <= j < frags[k].maxp1 && frags[k].min <= j
    ensures |frags[k].payload| == frags[k].maxp1 - frags[k].min
    ensures Assembled(frags, n)[j] == frags[k].payload[j - frags[k].min]
  {
    hide Assembled, Gapless;
    ByteAssembled(frags, n, j);
    if j < Reached(frags, n - 1) {
      k := FirstFragmentWins(frags, n - 1, j);
    } else {
      k := n - 1;
    }
  }

  ghost predicate PartOf(f: Fragment, original: seq<Byte>) {
    ValidFragment(f) && f.maxp1 <= |original| && f.payload == original[f.min..f.maxp1]
  }

  /** Any chain of overlapping fragments of a payload that leaves no gap assembles to the payload. */
  lemma AssembledIsOriginal(frags: seq<Fragment>, original: seq<Byte>)
    requires Gapless(frags) && Reached(frags, |frags|) == |original|
    requires forall i :: 0 <= i < |frags| ==> PartOf(frags[i], original)
    ensures Assembled(frags, |frags|) == original
  {
    hide Assembled, Reached, Gapless;
    forall j | 0 <= j < |original|
      ensures Assembled(frags, |frags|)[j] == original[j]
    {
      var k := FirstFragmentWins(frags, |frags|, j);
      var f := frags[k];
      assert PartOf(f, original);
      assert original[f.min..f.maxp1][j - f.min] == original[j];
    }
  }

  function Concat(iov: seq<seq<Byte>>, n: nat): seq<Byte>
    requires n <= |iov|
  {
    if n == 0 then [] else Concat(iov, n - 1) + iov[n - 1]
  }

  lemma ConcatNone(iov: seq<seq<Byte>>)
    ensures Concat(iov, 0) == []
  {
  }

  lemma ConcatStep(iov: seq<seq<Byte>>, i: nat)
    requires i < |iov|
    ensures Concat(iov, i + 1) == Concat(iov, i) + iov[i]
  {
  }

  lemma {:induction false} ConcatGrows(iov: seq<seq<Byte>>, i: nat, n: nat)
    requires i <= n <= |iov|
    ensures |Concat(iov, i)| <= |Concat(iov, n)|
    decreases n
  {
    if i < n {
      ConcatGrows(iov, i, n - 1);
    }
  }

  lemma NothingAssembled(frags: seq<Fragment>)
    requires Gapless(frags)
    ensures Assembled(frags, 0) == []
  {
  }

  lemma AssembledStep(frags: seq<Fragment>, i: nat)
    requires Gapless(frags) && i < |frags|
    ensures var off, f := Reached(frags, i), frags[i];
            && ValidFragment(f) && f.min <= off
            && Reached(frags, i + 1) == (if f.maxp1 > off then f.maxp1 else off)
            && Assembled(frags, i + 1) == Assembled(frags, i) + if f.maxp1 > off then f.payload[off - f.min..] else []
  {
  }

  // ---------------------------------------------------------------- the objects

  class SertypeRmw {
    const root: Type
    const variant: SampleOrRequest
    const native: Endian
    const containsKeys: bool
    const writer: CDRWriter
    const reader: KeyCDRReader

    ghost predicate Valid() {
      && writer.Valid() && writer.root == root && writer.variant == variant && writer.native == native
      && reader.Valid() && reader.root == root && reader.variant == variant && reader.native == native
      && containsKeys == HasKeys(root)
    }

    constructor (root: Type, variant: SampleOrRequest, native: Endian)
      requires root.Struct? && WellFormed(root)
      ensures Valid() && this.root == root && this.variant == variant && this.native == native
    {
      var w := new CDRWriter(root, variant, native);
      var r := new KeyCDRReader(root, variant, native);
      this.root, this.variant, this.native, writer, reader := root, variant, native, w, r;
      containsKeys := HasKeys(root);
    }
  }

  /** The key found in a received buffer; an exception leaves it empty. */
  function KeyIn(root: Type, variant: SampleOrRequest, native: Endian, kind: SampleOrKey, data: seq<Byte>): seq<Byte>
    requires root.Struct?
  {
    if !HasKeys(root) then []
    else
      var k := ExtractStream(root, variant, data, native, false, kind);
      if k.None? then [] else k.value
  }

  /** How many of `n` bytes go beyond the end of a buffer of `size` bytes. */
  function Excess(n: nat, size: nat): nat {
    if n > size then n - size else 0
  }

  /** The key made from a sample: what a zeroed buffer of the reported size holds of the serialized key. */
  function KeyMade(root: Type, variant: SampleOrRequest, s: Source, native: Endian): seq<Byte>
    requires root.Struct?
  {
    if !HasKeys(root) then []
    else Overlaid(Zeros(ReportedSize(root, variant, s, native, Key)), Stream(root, variant, s, native, Key))
  }

  /** How far making a key writes beyond its buffer. */
  function KeyOverrun(root: Type, variant: SampleOrRequest, s: Source, native: Endian): nat
    requires root.Struct?
  {
    if !HasKeys(root) then 0
    else Excess(|Stream(root, variant, s, native, Key)|, ReportedSize(root, variant, s, native, Key))
  }

  class SerdataRmw {
    const ty: SertypeRmw
    const kind: SampleOrKey
    var data: array?<Byte>
    var key: seq<Byte>

    constructor (ty: SertypeRmw, kind: SampleOrKey)
      ensures this.ty == ty && this.kind == kind && data == null && key == []
    {
      this.ty, this.kind, data, key := ty, kind, null, [];
    }

    ghost function Contents(): seq<Byte>
      reads this, data
    {
      if data == null then [] else data[..]
    }

    /** A fresh buffer, rounded up to a multiple of 4, of which only the padding is initialised. */
    method Resize(size: nat)
      modifies this`data
      ensures size == 0 ==> data == null
      ensures size > 0 ==> data != null && fresh(data)
      ensures |Contents()| == size + PaddingFor(size)
      ensures forall i :: size <= i < |Contents()| ==> Contents()[i] == 0
    {
      if size == 0 {
        data := null;
        return;
      }
      var padBytes := PaddingFor(size);
      var buf := new Byte[size + padBytes];
      forall i | size <= i < size + padBytes {
        buf[i] := 0;
      }
      data := buf;
    }

    method Copy(at: nat, b: seq<Byte>)
      requires at + |b| <= |Contents()|
      modifies data
      ensures |Contents()| == |old(Contents())|
      ensures Contents()[..at + |b|] == old(Contents())[..at] + b
      ensures forall i :: at + |b| <= i < |Contents()| ==> Contents()[i] == old(Contents())[i]
    {
      if data != null {
        forall i | 0 <= i < |b| {
          data[at + i] := b[i];
        }
      }
    }

    /** An exception leaves the key as it is. */
    method SetKeyFromSer()
      requires ty.Valid()
      modifies this`key
      ensures var k := ExtractStream(ty.root, ty.variant, Contents(), ty.native, false, kind);
              key == if HasKeys(ty.root) && k.Some? then k.value else old(key)
    {
      hide ExtractStream;
      if ty.containsKeys {
        var k := ty.reader.ExtractKey(if data == null then [] else data[..], kind);
        if k.Some? {
          key := k.value;
        }
      }
    }

    method SetKeyFromSample(s: Source) returns (overrun: nat)
      requires ty.Valid() && ValidSource(s)
      modifies this`key
      ensures key == if HasKeys(ty.root) then KeyMade(ty.root, ty.variant, s, ty.native) else old(key)
      ensures overrun == KeyOverrun(ty.root, ty.variant, s, ty.native)
    {
      hide Stream, ReportedSize;
      overrun := 0;
      if ty.containsKeys {
        var size := ty.writer.GetSerializedSize(s, Key);
        var buf := new Byte[size](i => 0);
        assert buf[..] == Zeros(size);
        overrun := ty.writer.Serialize(buf, s, Key);
        key := buf[..];
      }
    }
  }

  /** Reassembles a fragmented message of `size` bytes. */
  method FromSer(ty: SertypeRmw, kind: SampleOrKey, fragchain: seq<Fragment>, size: nat) returns (d: SerdataRmw)
    requires ty.Valid() && Gapless(fragchain) && Reached(fragchain, |fragchain|) <= size
    ensures d.ty == ty && d.kind == kind && |d.Contents()| == size + PaddingFor(size)
    ensures var b := Assembled(fragchain, |fragchain|);
            && d.Contents()[..|b|] == b
            && (|b| == size ==> d.Contents() == b + Zeros(PaddingFor(size)))
    ensures d.key == KeyIn(ty.root, ty.variant, ty.native, kind, d.Contents())
  {
    hide KeyIn, PaddingFor, Assembled, Gapless, ExtractStream;
    d := new SerdataRmw(ty, kind);
    d.Resize(size);
    Reassemble(d, fragchain, size);
    assert d.Contents()[size..] == Zeros(PaddingFor(size));
    assert d.Contents() == d.Contents()[..size] + d.Contents()[size..];
    KeyInMeans(ty.root, ty.variant, ty.native, kind, d.Contents());
    d.SetKeyFromSer();
  }

  method Reassemble(d: SerdataRmw, fragchain: seq<Fragment>, size: nat)
    requires Gapless(fragchain) && Reached(fragchain, |fragchain|) <= size <= |d.Contents()|
    modifies d.data
    ensures |d.Contents()| == |old(d.Contents())|
    ensures var b := Assembled(fragchain, |fragchain|); d.Contents()[..|b|] == b
    ensures forall j :: size <= j < |d.Contents()| ==> d.Contents()[j] == old(d.Contents())[j]
  {
    hide Assembled, Reached, Gapless, ValidFragment;
    NothingAssembled(fragchain);
    var cursor, off, i := 0, 0, 0;
    while i < |fragchain|
      invariant 0 <= i <= |fragchain|
      invariant cursor == off == Reached(fragchain, i) <= size
      invariant |d.Contents()| == |old(d.Contents())|
      invariant d.Contents()[..off] == Assembled(fragchain, i)
      invariant forall j :: size <= j < |d.Contents()| ==> d.Contents()[j] == old(d.Contents())[j]
    {
      var frag := fragchain[i];
      ReachedMonotone(fragchain, i, |fragchain|);
      AssembledStep(fragchain, i);
      if frag.maxp1 > off {
        var src := frag.payload[off - frag.min..];
        d.Copy(cursor, src);
        cursor := cursor + |src|;
        off := frag.maxp1;
      }
      i := i + 1;
    }
  }

  lemma KeyInMeans(root: Type, variant: SampleOrRequest, native: Endian, kind: SampleOrKey, data: seq<Byte>)
    requires root.Struct?
    ensures var k := ExtractStream(root, variant, data, native, false, kind);
            KeyIn(root, variant, native, kind, data) == if HasKeys(root) && k.Some? then k.value else []
  {
    hide ExtractStream;
  }

  /** Joins the pieces of a message of `size` bytes. */
  method FromSerIov(ty: SertypeRmw, kind: SampleOrKey, iov: seq<seq<Byte>>, size: nat) returns (d: SerdataRmw)
    requires ty.Valid() && |Concat(iov, |iov|)| <= size
    ensures d.ty == ty && d.kind == kind && |d.Contents()| == size + PaddingFor(size)
    ensures var b := Concat(iov, |iov|);
            && d.Contents()[..|b|] == b
            && (|b| == size ==> d.Contents() == b + Zeros(PaddingFor(size)))
    ensures d.key == KeyIn(ty.root, ty.variant, ty.native, kind, d.Contents())
  {
    hide KeyIn, PaddingFor, ExtractStream, Concat;
    d := new SerdataRmw(ty, kind);
    d.Resize(size);
    JoinPieces(d, iov, size);
    assert d.Contents()[size..] == Zeros(PaddingFor(size));
    assert d.Contents() == d.Contents()[..size] + d.Contents()[size..];
    KeyInMeans(ty.root, ty.variant, ty.native, kind, d.Contents());
    d.SetKeyFromSer();
  }

  method JoinPieces(d: SerdataRmw, iov: seq<seq<Byte>>, size: nat)
    requires |Concat(iov, |iov|)| <= size <= |d.Contents()|
    modifies d.data
    ensures |d.Contents()| == |old(d.Contents())|
    ensures var b := Concat(iov, |iov|); d.Contents()[..|b|] == b
    ensures forall j :: size <= j < |d.Contents()| ==> d.Contents()[j] == old(d.Contents())[j]
  {
    hide Concat;
    ConcatNone(iov);
    var cursor, i := 0, 0;
    while i < |iov|
      invariant 0 <= i <= |iov|
      invariant cursor == |Concat(iov, i)| <= size
      invariant |d.Contents()| == |old(d.Contents())|
      invariant d.Contents()[..cursor] == Concat(iov, i)
      invariant forall j :: size <= j < |d.Contents()| ==> d.Contents()[j] == old(d.Contents())[j]
    {
      ConcatGrows(iov, i + 1, |iov|);
      ConcatStep(iov, i);
      d.Copy(cursor, iov[i]);
      cursor := cursor + |iov[i]|;
      i := i + 1;
    }
  }

  /** Serializes a message held in memory; `overrun` bytes go beyond the buffers of the reported sizes. */
  method FromSample(ty: SertypeRmw, kind: SampleOrKey, s: Source) returns (d: SerdataRmw, overrun: nat)
    requires ty.Valid() && ValidSource(s)
    ensures d.ty == ty && d.kind == kind
    ensures var b := Stream(ty.root, ty.variant, s, ty.native, kind);
            var n := ReportedSize(ty.root, ty.variant, s, ty.native, kind);
            && |d.Contents()| == n + PaddingFor(n)
            && (forall i :: 0 <= i < |b| && i < |d.Contents()| ==> d.Contents()[i] == b[i])
            && overrun == KeyOverrun(ty.root, ty.variant, s, ty.native) + Excess(|b|, n + PaddingFor(n))
    ensures d.key == KeyMade(ty.root, ty.variant, s, ty.native)
  {
    hide Stream, ReportedSize, KeyMade, KeyOverrun, PaddingFor;
    d := new SerdataRmw(ty, kind);
    KeylessMade(ty.root, ty.variant, s, ty.native);
    overrun := d.SetKeyFromSample(s);
    var size := ty.writer.GetSerializedSize(s, kind);
    SizeNotZero(ty.root, ty.variant, s, ty.native, kind);
    d.Resize(size);
    var more := ty.writer.Serialize(d.data, s, kind);
    overrun := overrun + more;
  }

  lemma KeylessMade(root: Type, variant: SampleOrRequest, s: Source, native: Endian)
    requires root.Struct?
    ensures !HasKeys(root) ==> KeyMade(root, variant, s, native) == []
  {
  }

  lemma SizeNotZero(root: Type, variant: SampleOrRequest, s: Source, native: Endian, what: SampleOrKey)
    requires root.Struct?
    ensures ReportedSize(root, variant, s, native, what) > 0
  {
  }
}
