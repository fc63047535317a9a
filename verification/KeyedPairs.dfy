/**
 Keys that are made of pairs of octets of which only the first counts: what is written, extracted and hashed of them,
 since the bulk copy ignores key mode and the walk for size bounds does not.
 */
module KeyedPairs {
  import opened Bytes
  import opened Types
  import opened TrivCache
  import opened Cdr
  import opened NativeMemory
  import opened WriterPaths
  import opened KeyBulk
  import opened KeyBulkRead
  import opened SizeWalk
  import opened SizeBounds
  import opened CdrWriter
  import KP = KeyPaths
  import opened KeyReader
  import opened Serdata
  import opened KeyHash

  /** `n` keyed pairs as the key of a message. */
  function PairsKey(n: nat): Type {
    Struct([Member(Array(KEYED_PAIR, n), 0, true)], 2 * n)
  }

  lemma PairsBuilt(n: nat)
    requires 1 <= n <= UINT32_MAX
    ensures Built(PairsKey(n)) && HasKeys(PairsKey(n)) && Triv(PairsKey(n), 0) && SizeOf(PairsKey(n)) == 2 * n
  {
    var t, a := PairsKey(n), Array(KEYED_PAIR, n);
    assert t.members[0].isKey;
    PairTriv(0);
    PairTriv(2);
    assert Triv(a, 0);
    assert Packed(t, 0) == 0 && TrivMembers(t, 0, 0);
    assert Packed(t, 1) == 2 * n && TrivMembers(t, 0, 1);
  }

  /** Any memory holds such keys within their bounds. */
  lemma PairsInBounds(n: nat, s: Source, native: Endian)
    requires 1 <= n <= UINT32_MAX && ValidSource(s)
    ensures SourceInBounds(PairsKey(n), s, native, Key)
  {
    hide Triv, ValueOf, InBounds, HasType, Built;
    PairsBuilt(n);
    FlatTyped(PairsKey(n), 0, s.mem, s.addr, native, Key);
    FlatTypedKey(PairsKey(n), 0, ValueOf(PairsKey(n), s.mem, s.addr, native, Key), Key);
  }

  // ---------------------------------------------------------------- writing

  /** For the key of `n` pairs a buffer of `n + 6` bytes is reserved and `2 * n + 3` are written. */
  lemma PairsKeyOverruns(n: nat, s: Source, native: Endian)
    requires 2 <= n <= UINT32_MAX / 2 && ValidSource(s)
    ensures Built(PairsKey(n)) && SourceInBounds(PairsKey(n), s, native, Key)
    ensures ReportedSize(PairsKey(n), Plain, s, native, Key) == n + 6
    ensures |Stream(PairsKey(n), Plain, s, native, Key)| == 2 * n + 3
    ensures KeyOverrun(PairsKey(n), Plain, s, native) == if n > 3 then n - 3 else 0
  {
    hide Coded, End, Countable, SourceInBounds, Built;
    PairsBuilt(n);
    PairsInBounds(n, s, native);
    PairsKeyEnd(n, Min);
    PairsKeyEnd(n, MinOrMax.Max);
    PairsKeyCoded(n, s.mem, s.addr, native);
  }

  lemma PairsKeyEnd(n: nat, mm: MinOrMax)
    requires 2 <= n <= UINT32_MAX / 2
    ensures End(PairsKey(n), 0, Key, mm, OVERCOUNT) == n + 2 && Countable(PairsKey(n), Key, mm)
  {
    hide EndMany, CountableMany;
    var t, a := PairsKey(n), Array(KEYED_PAIR, n);
    assert t.members[0].isKey;
    PairsEnd(n, mm);
    assert EndMembers(t, 0, 0, Key, mm, OVERCOUNT) == 0;
    assert EndMembers(t, 1, 0, Key, mm, OVERCOUNT) == End(a, 0, Key, mm, OVERCOUNT);
    assert Countable(a, Key, mm);
  }

  lemma PairsEnd(n: nat, mm: MinOrMax)
    requires 2 <= n <= UINT32_MAX / 2
    ensures EndMany(KEYED_PAIR, n, 0, Key, mm, OVERCOUNT) == n + 2 && CountableMany(KEYED_PAIR, n, Key, mm)
  {
    hide End, Countable;
    PairEnd(0, mm);
    PairEnd(1, mm);
    assert Strides(n, 1) == n;
  }

  lemma PairEnd(x: nat, mm: MinOrMax)
    ensures End(KEYED_PAIR, x, Key, mm, OVERCOUNT) == x + 1 && Countable(KEYED_PAIR, Key, mm)
  {
    var e := KEYED_PAIR;
    assert e.members[0].isKey;
    assert Selected(e, 0, Key) && !Selected(e, 1, Key);
    assert EndMembers(e, 0, x, Key, mm, OVERCOUNT) == x;
    assert EndMembers(e, 1, x, Key, mm, OVERCOUNT) == x + 1;
  }

  lemma PairsKeyCoded(n: nat, m: Mem, a: int, native: Endian)
    requires n >= 2
    ensures |Coded(PairsKey(n), m, a, 0, native, Key)| == 2 * n - 1
  {
    hide Coded, CodedElems, Triv, Read;
    var e := KEYED_PAIR;
    PairCoded(m, a + 0, 0, native);
    PairTriv(1);
    PairTriv(3);
    assert Extent(e, n - 1) == 2 * n - 2;
    assert |CodedMany(e, m, a + 0, n, 0, native, Key)| == 2 * n - 1;
    PairsKeyUnfold(n, m, a, native);
  }

  lemma PairsKeyUnfold(n: nat, m: Mem, a: int, native: Endian)
    ensures Coded(PairsKey(n), m, a, 0, native, Key) == CodedMany(KEYED_PAIR, m, a + 0, n, 0, native, Key)
  {
    hide CodedMany, Triv;
    var t := PairsKey(n);
    assert t.members[0].isKey;
    var x := Coded(Array(KEYED_PAIR, n), m, a + 0, 0, native, Key);
    assert CodedMembers(t, m, a, 0, 0, native, Key) == [];
    assert CodedMembers(t, m, a, 1, 0, native, Key) == [] + x;
  }

  // ---------------------------------------------------------------- extracting and hashing

  lemma PairsKeyExtracted(n: nat, s: seq<Byte>, native: Endian, mode: KP.ExtractKeyMode)
    requires n >= 2 && !mode.Skip? && |s| >= 2 * n - if mode.FromKey? then 1 else 0
    ensures var r := KP.Extract(PairsKey(n), s, 0, 0, KP.Orientation(native, false, false), mode);
            r.Extracted? && |r.out| == 2 * n - 1
  {
    hide KP.ExtractMany, Triv;
    var t, x := PairsKey(n), KP.Orientation(native, false, false);
    assert t.members[0].isKey;
    PairsExtracted(n, s, native, mode);
    assert KP.ExtractMembers(t, 0, s, 0, 0, x, mode) == KP.Extracted([], 0);
    assert KP.ExtractMembers(t, 1, s, 0, 0, x, mode)
           == KP.Extracted([] + KP.Extract(Array(KEYED_PAIR, n), s, 0, 0, x, mode).out,
                           KP.Extract(Array(KEYED_PAIR, n), s, 0, 0, x, mode).end);
  }

  /** What is extracted from a stream in the byte order of the machine. */
  lemma PairsStreamExtracted(n: nat, cdr: seq<Byte>, native: Endian, what: SampleOrKey)
    requires 2 <= n <= UINT32_MAX && |cdr| >= 4 + 2 * n - (if what.Key? then 1 else 0)
    requires cdr[..4] == EncodingHeader(native)
    ensures var k := ExtractStream(PairsKey(n), Plain, cdr, native, false, what);
            k.Some? && |k.value| == 2 * n + 3 && k.value[..4] == EncodingHeader(native)
  {
    hide KP.Extract, Triv, Built;
    PairsBuilt(n);
    PairsKeyExtracted(n, cdr[4..], native, if what.Key? then KP.FromKey else KP.FromSample);
  }

  /**
   On a big-endian machine, where hashing swaps nothing, a received key of 9 to 14 pairs is copied beyond the hash,
   although it is within its bounds.
   */
  lemma PairsHashOverruns(n: nat, s: Source, tail: seq<Byte>)
    requires 2 <= n <= 14 && ValidSource(s)
    ensures Built(PairsKey(n)) && SourceInBounds(PairsKey(n), s, Big, Key) && CopiesKey(PairsKey(n), Plain, false)
    ensures var root := PairsKey(n);
            var key := ExtractStream(root, Plain, Stream(root, Plain, s, Big, Sample) + tail, Big, false, Sample);
            key.Some? && HashOverrun(root, Plain, Big, key.value, false) == if n > 8 then 2 * n - 17 else 0
  {
    hide ExtractStream, Stream, Built, SourceInBounds, End, Countable, Triv;
    PairsBuilt(n);
    PairsInBounds(n, s, Big);
    PairsKeyEnd(n, MinOrMax.Max);
    PairsSample(n, s, Big);
    var cdr := Stream(PairsKey(n), Plain, s, Big, Sample) + tail;
    PairsStreamExtracted(n, cdr, Big, Sample);
    PairsStreamExtracted(n, ExtractStream(PairsKey(n), Plain, cdr, Big, false, Sample).value, Big, Key);
  }

  lemma PairsSample(n: nat, s: Source, native: Endian)
    requires 2 <= n <= UINT32_MAX && ValidSource(s)
    ensures var cdr := Stream(PairsKey(n), Plain, s, native, Sample);
            |cdr| == 4 + 2 * n && cdr[..4] == EncodingHeader(native)
  {
    hide Triv, Built;
    PairsBuilt(n);
    var cdr := Stream(PairsKey(n), Plain, s, native, Sample);
    assert cdr == EncodingHeader(native) + [] + Read(s.mem, s.addr, 2 * n);
  }
}
