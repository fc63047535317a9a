/** The runtime type tree that every codec walk recurses over, and its CDR alignment facts. */
module Types {
  import opened Bytes

  datatype Kind =
    | Float | Double | Char | WChar | Boolean | Octet
    | UInt8 | Int8 | UInt16 | Int16 | UInt32 | Int32 | UInt64 | Int64
  {
    /** Size in memory. */
    function SizeOf(): (w: nat)
      ensures IsAlign(w)
    {
      match this
      case Char | Boolean | Octet | UInt8 | Int8 => 1
      case WChar | UInt16 | Int16 => 2
      case Float | UInt32 | Int32 => 4
      case Double | UInt64 | Int64 => 8
    }

    /** Size on the wire, which is also the alignment on the wire. */
    function CdrSizeOf(): (w: nat)
      ensures w == SizeOf()
    {
      match this
      case Boolean | Octet | UInt8 | Int8 | Char => 1
      case UInt16 | Int16 | WChar => 2
      case UInt32 | Int32 | Float => 4
      case UInt64 | Int64 | Double => 8
    }
  }

  /** `size` is the size in memory of the language object that stands for the value. */
  datatype Type =
    | Prim(kind: Kind)
    | Str(bound: nat, size: nat)
    | WStr(bound: nat, size: nat)
    | BoolVec(bound: nat, size: nat)
    | Struct(members: seq<Member>, size: nat)
    | Array(elem: Type, count: nat)
    | Sequence(elem: Type, bound: nat, size: nat)

  datatype Member = Member(ty: Type, offset: nat, isKey: bool)

  datatype SampleOrKey = Sample | Key

  function SizeOf(t: Type): nat {
    match t
    case Prim(k) => k.SizeOf()
    case Array(e, n) => n * SizeOf(e)
    case _ => t.size
  }

  /** Bytes taken by `n` consecutive elements. */
  function Extent(e: Type, n: nat): nat {
    n * SizeOf(e)
  }

  lemma ExtentStep(e: Type, n: nat)
    requires n > 0
    ensures Extent(e, n) == Extent(e, n - 1) + SizeOf(e)
  {
  }

  lemma ExtentZero(e: Type)
    ensures Extent(e, 0) == 0 && Extent(e, 1) == SizeOf(e)
  {
  }

  lemma ExtentSplit(e: Type, m: nat, n: nat)
    ensures Extent(e, m + n) == Extent(e, m) + Extent(e, n)
  {
  }

  lemma ExtentMonotone(e: Type, m: nat, n: nat)
    requires m <= n
    ensures Extent(e, m) <= Extent(e, n)
  {
  }

  predicate HasKeys(t: Type)
    requires t.Struct?
  {
    exists i :: 0 <= i < |t.members| && t.members[i].isKey
  }

  /** Is member `i` part of what a walk in mode `what` visits? */
  predicate Selected(t: Type, i: nat, what: SampleOrKey)
    requires t.Struct? && i < |t.members|
  {
    what.Sample? || !HasKeys(t) || t.members[i].isKey
  }

  lemma SelectedMeans(t: Type, i: nat, what: SampleOrKey)
    requires t.Struct? && i < |t.members|
    ensures Selected(t, i, what) <==> what.Sample? || !HasKeys(t) || t.members[i].isKey
  {
  }

  /** In no struct inside `t` does a key walk leave a member out. */
  predicate Whole(t: Type) {
    match t
    case Struct(ms, _) => forall i :: 0 <= i < |ms| ==> Selected(t, i, Key) && Whole(ms[i].ty)
    case Array(e, _) => Whole(e)
    case Sequence(e, _, _) => Whole(e)
    case _ => true
  }

  /** What the walks rely on in a type tree. */
  predicate WellFormed(t: Type) {
    match t
    case Prim(_) => true
    case Str(b, s) => b <= UINT32_MAX - 1 && s > 0
    case WStr(b, s) => b <= UINT32_MAX / 2 && s > 0
    case BoolVec(b, s) => b <= UINT32_MAX && s > 0
    case Struct(ms, s) =>
      && |ms| > 0
      && (forall i :: 0 <= i < |ms| ==> WellFormed(ms[i].ty) && ms[i].offset + SizeOf(ms[i].ty) <= s)
      && (forall i, j :: 0 <= i < j < |ms| ==> Apart(ms[i], ms[j]))
    case Array(e, n) => WellFormed(e) && 1 <= n <= UINT32_MAX && IsElement(e)
    case Sequence(e, b, s) => WellFormed(e) && b <= UINT32_MAX && s > 0 && IsElement(e)
  }

  /**
   The bounds that the type builder sets: the largest ones for all strings, whatever was declared for them,
   and positive ones for sequences.
   */
  predicate BuiltBounds(t: Type) {
    match t
    case Prim(_) => true
    case Str(b, _) => b == UINT32_MAX - 1
    case WStr(b, _) => b == UINT32_MAX / 2
    case BoolVec(b, _) => b >= 1
    case Struct(ms, _) => forall i :: 0 <= i < |ms| ==> BuiltBounds(ms[i].ty)
    case Array(e, _) => BuiltBounds(e)
    case Sequence(e, b, _) => BuiltBounds(e) && b >= 1
  }

  /** The trees that the type builder hands to the codec. */
  predicate Built(t: Type) {
    WellFormed(t) && BuiltBounds(t)
  }

  /** The members occupy disjoint parts of the struct. */
  predicate Apart(m: Member, m': Member) {
    m.offset + SizeOf(m.ty) <= m'.offset || m'.offset + SizeOf(m'.ty) <= m.offset
  }

  /** Well-formedness of the parts, without the disjointness of members. */
  lemma WellFormedBelow(t: Type)
    requires WellFormed(t)
    ensures t.Struct? ==> forall i :: 0 <= i < |t.members| ==>
              WellFormed(t.members[i].ty) && t.members[i].offset + SizeOf(t.members[i].ty) <= t.size
    ensures t.Array? || t.Sequence? ==> WellFormed(t.elem)
    ensures t.Str? || t.WStr? || t.BoolVec? || t.Sequence? ==> t.size > 0
  {
  }

  lemma MembersApart(t: Type, i: nat, j: nat)
    requires t.Struct? && WellFormed(t) && i < |t.members| && j < |t.members| && i != j
    ensures Apart(t.members[i], t.members[j])
  {
    assert Apart(t.members[if i < j then i else j], t.members[if i < j then j else i]);
  }

  predicate IsElement(t: Type) {
    t.Prim? || t.Str? || t.WStr? || t.Struct?
  }

  lemma {:induction false} SizePositive(t: Type)
    requires WellFormed(t)
    ensures SizeOf(t) > 0
  {
    match t
    case Struct(ms, _) => SizePositive(ms[0].ty);
    case Array(e, n) => SizePositive(e); assert n * SizeOf(e) >= SizeOf(e);
    case _ =>
  }
}
