/** Names of types and topics on the wire, and how the names of the ROS entities are got back from them. */
module Names {
  import opened Bytes

  // ---------------------------------------------------------------- searching strings

  predicate OccursAt(s: string, p: string, i: nat) {
    i + |p| <= |s| && s[i..i + |p|] == p
  }

  /** The first occurrence at or after `from`. */
  function Find(s: string, p: string, from: nat): (r: Option<nat>)
    ensures r.Some? ==> from <= r.value && OccursAt(s, p, r.value)
    ensures forall i: nat :: from <= i && (r.Some? ==> i < r.value) ==> !OccursAt(s, p, i)
    decreases |s| - from
  {
    if from + |p| > |s| then None
    else if OccursAt(s, p, from) then Some(from)
    else Find(s, p, from + 1)
  }

  /** The last occurrence at or before `upto`. */
  function RFind(s: string, p: string, upto: nat): (r: Option<nat>)
    ensures r.Some? ==> r.value <= upto && OccursAt(s, p, r.value)
    ensures forall i: nat :: i <= upto && (r.Some? ==> i > r.value) ==> !OccursAt(s, p, i)
  {
    if OccursAt(s, p, upto) then Some(upto) else if upto == 0 then None else RFind(s, p, upto - 1)
  }

  lemma FindIs(s: string, p: string, from: nat, k: nat)
    requires from <= k && OccursAt(s, p, k) && forall i: nat :: from <= i < k ==> !OccursAt(s, p, i)
    ensures Find(s, p, from) == Some(k)
  {
    var r := Find(s, p, from);
    if r.None? || k < r.value {
      assert false;
    } else if r.value < k {
      assert false;
    }
  }

  /** A suffix is the last occurrence of itself. */
  lemma RFindSuffix(s: string, p: string)
    requires |p| > 0
    ensures RFind(s + p, p, |s + p|) == Some(|s|)
  {
    var r := RFind(s + p, p, |s + p|);
    assert OccursAt(s + p, p, |s|);
    if r.None? || r.value < |s| {
      assert false;
    }
  }

  /** Every occurrence of `p`, from left to right and without overlaps, replaced by `r`. */
  function ReplaceAll(s: string, p: string, r: string): string
    requires |p| > 0
  {
    if |s| < |p| then s
    else if OccursAt(s, p, 0) then r + ReplaceAll(s[|p|..], p, r)
    else [s[0]] + ReplaceAll(s[1..], p, r)
  }

  lemma OccursShift(s: string, p: string, k: nat, i: nat)
    requires k <= |s|
    ensures OccursAt(s[k..], p, i) <==> OccursAt(s, p, k + i)
  {
    if k + i + |p| <= |s| {
      assert s[k..][i..i + |p|] == s[k + i..k + i + |p|];
    }
  }

  /** What lies before the first occurrence is kept. */
  lemma {:induction false} ReplaceSkips(s: string, p: string, r: string, k: nat)
    requires |p| > 0 && k <= |s| && forall i: nat :: i < k ==> !OccursAt(s, p, i)
    ensures ReplaceAll(s, p, r) == s[..k] + ReplaceAll(s[k..], p, r)
    decreases k
  {
    if k > 0 {
      assert !OccursAt(s, p, 0);
      forall i: nat | i < k - 1
        ensures !OccursAt(s[1..], p, i)
      {
        OccursShift(s, p, 1, i);
      }
      if |s| >= |p| {
        ReplaceSkips(s[1..], p, r, k - 1);
        assert s[1..][k - 1..] == s[k..] && s[..k] == [s[0]] + s[1..][..k - 1];
      } else {
        assert s == s[..k] + s[k..];
      }
    } else {
      assert s[0..] == s;
    }
  }

  lemma ReplaceAt(s: string, p: string, r: string, k: nat)
    requires |p| > 0 && OccursAt(s, p, k) && forall i: nat :: i < k ==> !OccursAt(s, p, i)
    ensures ReplaceAll(s, p, r) == s[..k] + r + ReplaceAll(s[k + |p|..], p, r)
  {
    hide ReplaceAll, OccursAt;
    OccursInside(s, p, k);
    ReplaceSkips(s, p, r, k);
    OccursShift(s, p, k, 0);
    OccursInside(s[k..], p, 0);
    ReplaceHead(s[k..], p, r);
    assert s[k..][|p|..] == s[k + |p|..];
    var x := ReplaceAll(s[k + |p|..], p, r);
    assert s[..k] + (r + x) == s[..k] + r + x;
  }

  lemma ReplaceHead(s: string, p: string, r: string)
    requires |p| > 0 && OccursAt(s, p, 0)
    ensures ReplaceAll(s, p, r) == r + ReplaceAll(s[|p|..], p, r)
  {
  }

  lemma OccursInside(s: string, p: string, k: nat)
    requires OccursAt(s, p, k)
    ensures k + |p| <= |s|
  {
  }

  lemma ReplaceNothing(s: string, p: string, r: string)
    requires |p| > 0 && forall i: nat :: i < |s| ==> !OccursAt(s, p, i)
    ensures ReplaceAll(s, p, r) == s
  {
    ReplaceSkips(s, p, r, |s|);
    assert s[..|s|] == s && s[|s|..] == [];
  }

  // ---------------------------------------------------------------- type names

  /** The name on the wire of a type, or with a suffix of the request or response of a service type. */
  function TypeName(ns: string, name: string, suffix: string): string {
    (if ns == "" then "" else ReplaceAll(ns, "__", "::") + "::") + "dds_::" + name + "_" + suffix
  }

  method GetTypeNameImpl(ns: string, name: string, suffix: string) returns (r: string)
    ensures r == TypeName(ns, name, suffix)
  {
    r := "";
    if ns != "" {
      var mangled := MangleNamespace(ns);
      r := r + mangled + "::";
      assert "" + mangled + "::" == mangled + "::";
    }
    r := r + "dds_::" + name + "_" + suffix;
    assert "" + "dds_::" == "dds_::";
  }

  /** Replaces the namespace separator of C by that of C++. */
  method MangleNamespace(ns: string) returns (mangled: string)
    ensures mangled == ReplaceAll(ns, "__", "::")
  {
    mangled := ns;
    var pos := 0;
    var at := Find(mangled, "__", pos);
    assert ns[0..] == ns && mangled[..0] == [];
    while at.Some?
      invariant pos <= |mangled| == |ns|
      invariant at == Find(mangled, "__", pos)
      invariant mangled[..pos] + ReplaceAll(mangled[pos..], "__", "::") == ReplaceAll(ns, "__", "::")
      decreases |mangled| - pos
    {
      ghost var before, rest := mangled[..pos], mangled[pos..];
      var k := at.value;
      NextReplaced(mangled, pos, k);
      mangled := mangled[..k] + "::" + mangled[k + 2..];
      pos := k + 2;
      at := Find(mangled, "__", pos);
    }
    NoneLeft(mangled, pos);
  }

  lemma NextReplaced(s: string, pos: nat, k: nat)
    requires pos <= |s| && Find(s, "__", pos) == Some(k)
    ensures k + 2 <= |s|
    ensures var t := s[..k] + "::" + s[k + 2..];
            && |t| == |s|
            && t[..k + 2] + ReplaceAll(t[k + 2..], "__", "::") == s[..pos] + ReplaceAll(s[pos..], "__", "::")
  {
    hide ReplaceAll, OccursAt, Find;
    var rest := s[pos..];
    OccursInside(s, "__", k);
    OccursShift(s, "__", pos, k - pos);
    forall i: nat | i < k - pos
      ensures !OccursAt(rest, "__", i)
    {
      OccursShift(s, "__", pos, i);
    }
    ReplaceAt(rest, "__", "::", k - pos);
    var t := s[..k] + "::" + s[k + 2..];
    assert t[k + 2..] == s[k + 2..] && t[..k + 2] == s[..k] + "::";
    assert rest[k - pos + 2..] == s[k + 2..] && s[..pos] + rest[..k - pos] == s[..k];
  }

  lemma NoneLeft(s: string, pos: nat)
    requires pos <= |s| && Find(s, "__", pos).None?
    ensures s[..pos] + ReplaceAll(s[pos..], "__", "::") == s
  {
    forall i: nat | i < |s[pos..]|
      ensures !OccursAt(s[pos..], "__", i)
    {
      OccursShift(s, "__", pos, i);
    }
    ReplaceNothing(s[pos..], "__", "::");
  }

  /** Back to a ROS type name; what does not look like the wire name of a ROS type is kept. */
  function DemangleIfRosType(s: string): string
    requires |s| > 0
  {
    if s[|s| - 1] != '_' then s
    else
      var at := Find(s, "dds_::", 0);
      if at.None? then s else Around(s, at.value, |s| - 1)
  }

  /** The namespace before `at` with slashes, and the name between the marker at `at` and `end`. */
  function Around(s: string, at: nat, end: nat): string
    requires at + 6 <= |s|
  {
    ReplaceAll(s[..at], "::", "/") + if at + 6 <= end <= |s| then s[at + 6..end] else s[at + 6..]
  }

  // ---------------------------------------------------------------- namespaces

  /** Each component followed by the separator. */
  function Path(cs: seq<string>, sep: string): string {
    if cs == [] then "" else cs[0] + sep + Path(cs[1..], sep)
  }

  function Join(cs: seq<string>, sep: string): string {
    if |cs| == 0 then "" else if |cs| == 1 then cs[0] else cs[0] + sep + Join(cs[1..], sep)
  }

  /** A component of a namespace is not empty and does not contain a separator. */
  predicate Component(c: string) {
    |c| > 0 && ':' !in c && forall i: nat :: i < |c| ==> !OccursAt(c, "__", i)
  }

  predicate EndsWith(c: string, p: string) {
    |c| >= |p| && c[|c| - |p|..] == p
  }

  /** `ns` is the namespace with components `cs` as the C++ or the C type support spells it. */
  predicate Spells(ns: string, cs: seq<string>) {
    && (forall i :: 0 <= i < |cs| ==> Component(cs[i]))
    && (ns == Join(cs, "::")
        || (ns == Join(cs, "__") && forall i :: 0 <= i < |cs| - 1 ==> !EndsWith(cs[i], "_")))
  }

  lemma {:induction false} JoinPath(cs: seq<string>, sep: string)
    requires cs != []
    ensures Join(cs, sep) + sep == Path(cs, sep)
  {
    if |cs| == 1 {
      assert Path(cs[1..], sep) == "";
    } else {
      JoinPath(cs[1..], sep);
      assert cs[0] + sep + Join(cs[1..], sep) + sep == cs[0] + sep + (Join(cs[1..], sep) + sep);
    }
  }

  lemma Underscores(s: string, i: nat)
    ensures OccursAt(s, "__", i) <==> i + 2 <= |s| && s[i] == '_' && s[i + 1] == '_'
  {
    if i + 2 <= |s| {
      assert s[i..i + 2] == [s[i], s[i + 1]];
    }
  }

  /** No pair of underscores starts inside a component. */
  lemma NoneInside(c: string, rest: string, i: nat)
    requires Component(c) && i < |c| && (rest == "" || rest[0] != '_' || !EndsWith(c, "_"))
    ensures !OccursAt(c + rest, "__", i)
  {
    Underscores(c + rest, i);
    Underscores(c, i);
    assert c[|c| - 1..] == [c[|c| - 1]];
  }

  /** The C++ spelling has nothing to replace, in the C spelling every separator is replaced. */
  lemma {:induction false} NamespaceMangled(cs: seq<string>, ns: string)
    requires Spells(ns, cs)
    ensures ReplaceAll(ns, "__", "::") == Join(cs, "::")
  {
    if ns == Join(cs, "::") {
      JoinKept(cs);
    } else {
      JoinReplaced(cs);
    }
  }

  lemma {:induction false} JoinReplaced(cs: seq<string>)
    requires forall i :: 0 <= i < |cs| ==> Component(cs[i])
    requires forall i :: 0 <= i < |cs| - 1 ==> !EndsWith(cs[i], "_")
    ensures ReplaceAll(Join(cs, "__"), "__", "::") == Join(cs, "::")
  {
    if |cs| == 1 {
      ComponentKept(cs[0]);
    } else if |cs| > 1 {
      var c, s := cs[0], Join(cs, "__");
      var rest := "__" + Join(cs[1..], "__");
      assert s == c + rest;
      forall i: nat | i < |c|
        ensures !OccursAt(s, "__", i)
      {
        NoneInside(c, rest, i);
      }
      assert s[|c|..|c| + 2] == "__";
      ReplaceAt(s, "__", "::", |c|);
      assert s[..|c|] == c && s[|c| + 2..] == Join(cs[1..], "__");
      JoinReplaced(cs[1..]);
    }
  }

  lemma ComponentKept(c: string)
    requires Component(c)
    ensures ReplaceAll(c, "__", "::") == c
  {
    ReplaceNothing(c, "__", "::");
  }

  lemma {:induction false} JoinKept(cs: seq<string>)
    requires forall i :: 0 <= i < |cs| ==> Component(cs[i])
    ensures ReplaceAll(Join(cs, "::"), "__", "::") == Join(cs, "::")
  {
    if |cs| == 1 {
      ComponentKept(cs[0]);
    } else if |cs| > 1 {
      var c, s := cs[0], Join(cs, "::");
      var rest := "::" + Join(cs[1..], "::");
      assert s == c + rest;
      forall i: nat | i < |c| + 2
        ensures !OccursAt(s, "__", i)
      {
        if i < |c| {
          NoneInside(c, rest, i);
        } else {
          assert s[i] == ':';
        }
      }
      ReplaceSkips(s, "__", "::", |c| + 2);
      assert s[..|c| + 2] == c + "::" && s[|c| + 2..] == Join(cs[1..], "::");
      JoinKept(cs[1..]);
    }
  }

  // ---------------------------------------------------------------- the marker

  const MARKER: string := "dds_::"

  /** Where the marker first occurs in a namespace path followed by the marker. */
  function FirstMarker(cs: seq<string>): nat {
    if cs == [] then 0
    else if EndsWith(cs[0], "dds_") then |cs[0]| - 4
    else |cs[0]| + 2 + FirstMarker(cs[1..])
  }

  lemma MarkerChars(s: string, i: nat)
    ensures OccursAt(s, MARKER, i)
            <==> i + 6 <= |s| && s[i] == 'd' && s[i + 1] == 'd' && s[i + 2] == 's' && s[i + 3] == '_'
                 && s[i + 4] == ':' && s[i + 5] == ':'
  {
    if i + 6 <= |s| {
      assert s[i..i + 6] == [s[i], s[i + 1], s[i + 2], s[i + 3], s[i + 4], s[i + 5]];
    }
  }

  lemma EndChars(c: string)
    ensures EndsWith(c, "dds_")
            <==> |c| >= 4 && c[|c| - 4] == 'd' && c[|c| - 3] == 'd' && c[|c| - 2] == 's' && c[|c| - 1] == '_'
  {
    if |c| >= 4 {
      assert c[|c| - 4..] == [c[|c| - 4], c[|c| - 3], c[|c| - 2], c[|c| - 1]];
    }
  }

  /** In a component followed by its separator the marker occurs only at the end. */
  lemma MarkerInside(c: string, rest: string, i: nat)
    requires ':' !in c && i < |c| + 2
    ensures OccursAt(c + "::" + rest, MARKER, i) <==> i + 4 == |c| && EndsWith(c, "dds_")
  {
    MarkerChars(c + "::" + rest, i);
    EndChars(c);
    assert i + 4 < |c| ==> c[i + 4] in c;
  }

  lemma {:induction false} MarkerFound(cs: seq<string>, rest: string)
    requires forall i :: 0 <= i < |cs| ==> ':' !in cs[i]
    ensures Find(Path(cs, "::") + MARKER + rest, MARKER, 0) == Some(FirstMarker(cs))
  {
    hide Find, OccursAt;
    var s := Path(cs, "::") + MARKER + rest;
    if cs == [] {
      assert s == MARKER + rest;
      MarkerChars(s, 0);
      FindIs(s, MARKER, 0, 0);
    } else {
      var c, inner := cs[0], Path(cs[1..], "::") + MARKER + rest;
      assert s == c + "::" + inner;
      MarkerFound(cs[1..], rest);
      MarkerBehind(c, inner, FirstMarker(cs[1..]));
    }
  }

  lemma MarkerBehind(c: string, inner: string, f: nat)
    requires ':' !in c && Find(inner, MARKER, 0) == Some(f)
    ensures Find(c + "::" + inner, MARKER, 0)
            == Some(if EndsWith(c, "dds_") then |c| - 4 else |c| + 2 + f)
  {
    hide Find, OccursAt;
    var s := c + "::" + inner;
    forall i: nat | i < |c| + 2
      ensures OccursAt(s, MARKER, i) <==> i + 4 == |c| && EndsWith(c, "dds_")
    {
      MarkerInside(c, inner, i);
    }
    if EndsWith(c, "dds_") {
      FindIs(s, MARKER, 0, |c| - 4);
    } else {
      assert s[|c| + 2..] == inner;
      FoundBehind(s, |c| + 2, f);
    }
  }

  lemma FoundBehind(s: string, k: nat, f: nat)
    requires k <= |s| && (forall i: nat :: i < k ==> !OccursAt(s, MARKER, i))
    requires Find(s[k..], MARKER, 0) == Some(f)
    ensures Find(s, MARKER, 0) == Some(k + f)
  {
    hide Find, OccursAt;
    OccursShift(s, MARKER, k, f);
    forall i: nat | i < k + f
      ensures !OccursAt(s, MARKER, i)
    {
      if i >= k {
        OccursShift(s, MARKER, k, i - k);
      }
    }
    FindIs(s, MARKER, 0, k + f);
  }

  /** No component ends so that its separator completes a marker. */
  predicate NoMarker(cs: seq<string>) {
    forall i :: 0 <= i < |cs| ==> !EndsWith(cs[i], "dds_")
  }

  lemma {:induction false} PathShorter(cs: seq<string>)
    ensures |Path(cs, "/")| <= |Path(cs, "::")|
  {
    if cs != [] {
      PathShorter(cs[1..]);
    }
  }

  lemma Colons(s: string, i: nat)
    ensures OccursAt(s, "::", i) <==> i + 2 <= |s| && s[i] == ':' && s[i + 1] == ':'
  {
    if i + 2 <= |s| {
      assert s[i..i + 2] == [s[i], s[i + 1]];
    }
  }

  lemma NoColons(c: string)
    requires ':' !in c
    ensures ReplaceAll(c, "::", "/") == c
  {
    forall i: nat | i < |c|
      ensures !OccursAt(c, "::", i)
    {
      Colons(c, i);
    }
    ReplaceNothing(c, "::", "/");
  }

  lemma ColonsBehind(c: string, rest: string)
    requires ':' !in c
    ensures ReplaceAll(c + "::" + rest, "::", "/") == c + "/" + ReplaceAll(rest, "::", "/")
  {
    var s := c + "::" + rest;
    forall i: nat | i < |c|
      ensures !OccursAt(s, "::", i)
    {
      Colons(s, i);
    }
    Colons(s, |c|);
    ReplaceAt(s, "::", "/", |c|);
    assert s[..|c|] == c && s[|c| + 2..] == rest;
  }

  /**
   What stands around the first marker is the namespace with slashes and the name if no component of the
   namespace makes a marker of its own; otherwise it is longer than that.
   */
  lemma {:induction false} PathDemangled(cs: seq<string>, mid: string, tail: string)
    requires forall i :: 0 <= i < |cs| ==> ':' !in cs[i]
    ensures var s := Path(cs, "::") + MARKER + (mid + tail);
            && FirstMarker(cs) + 6 <= |s| - |tail|
            && var r := Around(s, FirstMarker(cs), |s| - |tail|);
               && (NoMarker(cs) ==> r == Path(cs, "/") + mid)
               && (!NoMarker(cs) ==> |r| > |Path(cs, "/") + mid|)
  {
    hide OccursAt, ReplaceAll, EndsWith;
    var s := Path(cs, "::") + MARKER + (mid + tail);
    if cs == [] {
      assert s == MARKER + mid + tail;
      NoColons("");
      assert s[..0] == "" && s[6..|s| - |tail|] == mid;
    } else {
      var c, inner := cs[0], Path(cs[1..], "::") + MARKER + (mid + tail);
      assert s == c + "::" + inner;
      PathDemangled(cs[1..], mid, tail);
      AroundBehind(c, inner, FirstMarker(cs[1..]), |tail|);
      PathShorter(cs[1..]);
      assert NoMarker(cs) <==> !EndsWith(c, "dds_") && NoMarker(cs[1..]);
    }
  }

  /** One component more. */
  lemma AroundBehind(c: string, inner: string, f: nat, t: nat)
    requires ':' !in c && f + 6 + t <= |inner|
    ensures !EndsWith(c, "dds_") ==>
              Around(c + "::" + inner, |c| + 2 + f, |c + "::" + inner| - t) == c + "/" + Around(inner, f, |inner| - t)
    ensures EndsWith(c, "dds_") ==>
              |c| >= 4 && |Around(c + "::" + inner, |c| - 4, |c + "::" + inner| - t)| == |c| - 4 + |inner| - t
  {
    hide ReplaceAll;
    var s := c + "::" + inner;
    if EndsWith(c, "dds_") {
      assert s[..|c| - 4] == c[..|c| - 4];
      NoColons(c[..|c| - 4]);
    } else {
      assert s[..|c| + 2 + f] == c + "::" + inner[..f];
      ColonsBehind(c, inner[..f]);
      assert s[|c| + 2 + f + 6..|s| - t] == inner[f + 6..|inner| - t];
    }
  }

  /** The wire name, taken apart. */
  lemma TypeNameParts(ns: string, cs: seq<string>, name: string, suffix: string)
    requires Spells(ns, cs)
    ensures TypeName(ns, name, suffix) == Path(cs, "::") + MARKER + (name + ("_" + suffix))
  {
    hide ReplaceAll, OccursAt;
    if cs == [] {
      assert ns == "";
    } else {
      NamespaceMangled(cs, ns);
      JoinPath(cs, "::");
      JoinNotEmpty(cs);
    }
  }

  lemma JoinNotEmpty(cs: seq<string>)
    requires cs != [] && |cs[0]| > 0
    ensures Join(cs, "::") != "" && Join(cs, "__") != ""
  {
  }

  /**
   Demangling the wire name of a type gives its namespace with slashes and its name, whichever type support
   spelled the namespace, if and only if no component of the namespace ends in `dds_`.
   */
  lemma TypeRoundTrip(ns: string, cs: seq<string>, name: string)
    requires Spells(ns, cs)
    ensures |TypeName(ns, name, "")| > 0
    ensures DemangleIfRosType(TypeName(ns, name, "")) == Path(cs, "/") + name <==> NoMarker(cs)
  {
    hide Find, ReplaceAll, OccursAt, Around, TypeName;
    TypeNameParts(ns, cs, name, "");
    assert name + ("_" + "") == name + "_";
    MarkerFound(cs, name + "_");
    PathDemangled(cs, name, "_");
  }

  // ---------------------------------------------------------------- service types

  const RESPONSE: string := "_Response_"
  const REQUEST: string := "_Request_"

  /** A response suffix counts only at the end; a request suffix is believed anywhere. */
  function SuffixPosition(s: string): Option<nat> {
    var p := RFind(s, RESPONSE, |s|);
    if p.Some? && p.value + |RESPONSE| == |s| then p else RFind(s, REQUEST, |s|)
  }

  function ServiceTypeOnly(s: string): string {
    var at := Find(s, MARKER, 0);
    var p := SuffixPosition(s);
    if at.None? || p.None? then "" else Around(s, at.value, p.value)
  }

  method DemangleServiceTypeOnly(s: string) returns (r: string)
    ensures r == ServiceTypeOnly(s)
  {
    hide Find, RFind, Around;
    var at := Find(s, MARKER, 0);
    if at.None? {
      return "";
    }
    var suffixes := [RESPONSE, REQUEST];
    var suffixPosition: Option<nat> := Some(0);
    var i := 0;
    while i < |suffixes|
      invariant 0 <= i <= |suffixes|
      invariant i == 1 ==> suffixPosition == RFind(s, RESPONSE, |s|)
                           && !(suffixPosition.Some? && suffixPosition.value + |RESPONSE| == |s|)
      invariant i == 2 ==> suffixPosition == SuffixPosition(s)
    {
      suffixPosition := RFind(s, suffixes[i], |s|);
      if suffixPosition.Some? && suffixPosition.value + |suffixes[i]| == |s| {
        break;
      }
      i := i + 1;
    }
    if suffixPosition.None? {
      return "";
    }
    r := Around(s, at.value, suffixPosition.value);
  }

  lemma SecondChar(t: string, p: string, i: nat)
    requires OccursAt(t, p, i) && |p| > 1
    ensures t[i + 1] == p[1]
  {
    assert t[i..i + |p|][1] == p[1];
  }

  lemma RequestSuffix(s: string)
    ensures SuffixPosition(s + REQUEST) == Some(|s|)
  {
    hide RFind;
    var t := s + REQUEST;
    RFindSuffix(s, REQUEST);
    forall i: nat | OccursAt(t, RESPONSE, i)
      ensures t[i + 1] == 'R'
    {
      SecondChar(t, RESPONSE, i);
    }
    assert t[|s|] == '_';
  }

  lemma ResponseSuffix(s: string)
    ensures SuffixPosition(s + RESPONSE) == Some(|s|)
  {
    hide RFind;
    RFindSuffix(s, RESPONSE);
  }

  /**
   The request and the response type of a service demangle to the same service type, and that is the namespace
   with slashes and the name of the service if and only if no component of the namespace ends in `dds_`.
   */
  lemma ServiceTypeRoundTrip(ns: string, cs: seq<string>, name: string)
    requires Spells(ns, cs)
    ensures ServiceTypeOnly(TypeName(ns, name, "Request_")) == Path(cs, "/") + name <==> NoMarker(cs)
    ensures ServiceTypeOnly(TypeName(ns, name, "Response_")) == Path(cs, "/") + name <==> NoMarker(cs)
  {
    hide Find, ReplaceAll, OccursAt, Around, TypeName, SuffixPosition;
    var p := Path(cs, "::") + MARKER;
    assert "_" + "Request_" == REQUEST && "_" + "Response_" == RESPONSE;
    TypeNameParts(ns, cs, name, "Request_");
    MarkerFound(cs, name + REQUEST);
    PathDemangled(cs, name, REQUEST);
    RequestSuffix(p + name);
    assert p + name + REQUEST == p + (name + REQUEST);
    TypeNameParts(ns, cs, name, "Response_");
    MarkerFound(cs, name + RESPONSE);
    PathDemangled(cs, name, RESPONSE);
    ResponseSuffix(p + name);
    assert p + name + RESPONSE == p + (name + RESPONSE);
  }

  // ---------------------------------------------------------------- message types among service types

  ghost predicate Occurs(t: string, p: string) {
    exists i: nat :: OccursAt(t, p, i)
  }

  ghost predicate LastAt(t: string, p: string, k: nat) {
    OccursAt(t, p, k) && forall i: nat :: i > k ==> !OccursAt(t, p, i)
  }

  lemma RFindIs(t: string, p: string, k: nat)
    ensures RFind(t, p, |t|) == Some(k) <==> k <= |t| && LastAt(t, p, k)
    ensures RFind(t, p, |t|).None? <==> !Occurs(t, p)
  {
    forall i: nat | OccursAt(t, p, i)
      ensures i <= |t|
    {
      OccursInside(t, p, i);
    }
  }

  /** The name ends so that the wire name of the message ends like that of a response. */
  lemma ResponseEnds(x: string, name: string)
    ensures var t := x + MARKER + (name + "_");
            && (EndsWith(name, "_Response") <==> |t| >= 10 && OccursAt(t, RESPONSE, |t| - 10))
  {
    var t := x + MARKER + (name + "_");
    assert t == x + MARKER + name + "_";
    if EndsWith(name, "_Response") {
      assert t[|t| - 10..] == name[|name| - 9..] + "_";
    } else if |t| >= 10 && |name| >= 9 {
      assert t[|t| - 10..|t|][..9] == name[|name| - 9..];
    } else if |t| >= 10 {
      ColonInside(x, name);
    }
  }

  lemma ColonInside(x: string, name: string)
    requires |x + MARKER + name| >= 9 && |name| < 9
    ensures var t := x + MARKER + (name + "_"); t[|t| - 10..|t|] != RESPONSE
  {
    var t := x + MARKER + (name + "_");
    var c := |x| + 5;
    assert t[c] == ':' && |t| - 10 <= c;
    assert t[|t| - 10..|t|][c - (|t| - 10)] == ':';
  }

  lemma {:induction false} ReplaceNotEmpty(s: string)
    requires s != ""
    ensures ReplaceAll(s, "::", "/") != ""
  {
  }

  lemma FirstMarkerInside(cs: seq<string>)
    ensures FirstMarker(cs) <= |Path(cs, "::")|
    ensures (forall i :: 0 <= i < |cs| ==> |cs[i]| > 0) ==> (Path(cs, "::") == "" <==> cs == [])
  {
  }

  /** What is found of a message type: where the marker is, and where the suffix, if there is one. */
  lemma MessageParts(ns: string, cs: seq<string>, name: string)
    requires Spells(ns, cs)
    ensures var t := TypeName(ns, name, "");
            && |t| == |Path(cs, "::")| + 7 + |name|
            && Find(t, MARKER, 0) == Some(FirstMarker(cs)) && FirstMarker(cs) + 6 < |t|
            && SuffixPosition(t)
               == if EndsWith(name, "_Response") then Some(|t| - 10) else RFind(t, REQUEST, |t|)
  {
    hide Find, RFind, TypeName, OccursAt, EndsWith;
    var t := TypeName(ns, name, "");
    TypeNameParts(ns, cs, name, "");
    assert name + ("_" + "") == name + "_";
    MarkerFound(cs, name + "_");
    FirstMarkerInside(cs);
    ResponseEnds(Path(cs, "::"), name);
    var r := RFind(t, RESPONSE, |t|);
    if r.Some? {
      OccursInside(t, RESPONSE, r.value);
    }
  }

  /** Nothing stands between the marker at the very beginning and the suffix. */
  ghost predicate NothingLeft(ns: string, name: string) {
    var t := TypeName(ns, name, "");
    if EndsWith(name, "_Response") then ns == "" && name == "_Response"
    else OccursAt(t, MARKER, 0) && LastAt(t, REQUEST, 6)
  }

  /**
   A message type is not taken for a service type if and only if its name does not end like that of a response and
   the suffix of a request does not occur in its wire name, neither in the name nor in the namespace;
   or the suffix follows directly on a marker at the very beginning, so that the empty string is left.
   */
  lemma MessageIsNoService(ns: string, cs: seq<string>, name: string)
    requires Spells(ns, cs)
    ensures ServiceTypeOnly(TypeName(ns, name, "")) == ""
            <==> (!EndsWith(name, "_Response") && !Occurs(TypeName(ns, name, ""), REQUEST)) || NothingLeft(ns, name)
  {
    hide RFind, TypeName, OccursAt, ReplaceAll, LastAt, Occurs, SuffixPosition, Spells;
    var t := TypeName(ns, name, "");
    MessageParts(ns, cs, name);
    RFindIs(t, REQUEST, 6);
    SpelledEmpty(ns, cs);
    FirstMarkerInside(cs);
    var at, p := FirstMarker(cs), SuffixPosition(t);
    AtBeginning(t, at);
    if p.Some? {
      SuffixInside(t);
      LeftEmpty(t, at, p.value);
    }
  }

  lemma SpelledEmpty(ns: string, cs: seq<string>)
    requires Spells(ns, cs)
    ensures ns == "" <==> cs == []
    ensures forall i :: 0 <= i < |cs| ==> |cs[i]| > 0
  {
    if cs != [] {
      assert |cs[0]| > 0;
      JoinNotEmpty(cs);
    }
  }

  lemma AtBeginning(t: string, at: nat)
    requires Find(t, MARKER, 0) == Some(at)
    ensures at == 0 <==> OccursAt(t, MARKER, 0)
  {
  }

  lemma SuffixInside(t: string)
    requires SuffixPosition(t).Some?
    ensures SuffixPosition(t).value <= |t|
  {
  }

  lemma LeftEmpty(t: string, at: nat, p: nat)
    requires at + 6 < |t| && p <= |t|
    ensures Around(t, at, p) == "" <==> at == 0 && p == 6
  {
    hide ReplaceAll;
    if at > 0 {
      ReplaceNotEmpty(t[..at]);
    } else {
      NoColons("");
      assert t[..0] == "";
    }
  }

  /** A suffix in the name, one in the namespace, and a name that ends like that of a response. */
  lemma MessagesTakenForServices()
    ensures ServiceTypeOnly(TypeName("", "A_Request_B", "")) != ""
    ensures ServiceTypeOnly(TypeName("_Request_", "C", "")) != ""
    ensures ServiceTypeOnly(TypeName("", "A_Response", "")) != ""
  {
    hide ServiceTypeOnly, TypeName, OccursAt;
    NameWithSuffix();
    NamespaceWithSuffix();
    MessageIsNoService("", [], "A_Response");
    assert "A_Response"[1..] == "_Response";
  }

  lemma OccursHere(t: string, p: string, k: nat)
    requires k + |p| <= |t| && t[k..k + |p|] == p
    ensures OccursAt(t, p, k) && Occurs(t, p)
  {
    assert OccursAt(t, p, k);
  }

  lemma FirstChar(t: string, p: string)
    requires |t| > 6 && |p| > 0 && t[6] != p[0]
    ensures !LastAt(t, p, 6)
  {
    assert 6 + |p| <= |t| ==> t[6..6 + |p|][0] == t[6];
  }

  lemma NameWithSuffix()
    ensures ServiceTypeOnly(TypeName("", "A_Request_B", "")) != ""
  {
    hide ServiceTypeOnly, TypeName, OccursAt, Occurs, LastAt, ReplaceAll;
    MessageIsNoService("", [], "A_Request_B");
    TypeNameParts("", [], "A_Request_B", "");
    var t := TypeName("", "A_Request_B", "");
    assert t == "dds_::A_Request_B_";
    assert t[7..16] == REQUEST;
    OccursHere(t, REQUEST, 7);
    FirstChar(t, REQUEST);
    assert !EndsWith("A_Request_B", "_Response") by {
      assert "A_Request_B"[2..][0] == 'R';
    }
  }

  lemma NamespaceWithSuffix()
    ensures ServiceTypeOnly(TypeName("_Request_", "C", "")) != ""
  {
    hide ServiceTypeOnly, TypeName, OccursAt, Occurs, LastAt, ReplaceAll;
    var cs := ["_Request_"];
    forall i: nat | i < 9
      ensures !OccursAt(cs[0], "__", i)
    {
      Underscores(cs[0], i);
    }
    assert Spells("_Request_", cs);
    MessageIsNoService("_Request_", cs, "C");
    TypeNameParts("_Request_", cs, "C", "");
    var t := TypeName("_Request_", "C", "");
    assert Path(cs[1..], "::") == "";
    assert t == "_Request_::dds_::C_";
    OccursHere(t, REQUEST, 0);
    FirstChar(t, REQUEST);
  }

  // ---------------------------------------------------------------- topic names

  const TOPIC_PREFIX: string := "rt"
  const REQUESTER_PREFIX: string := "rq"
  const RESPONSE_PREFIX: string := "rr"

  function MakeFqTopic(prefix: string, topic: string, suffix: string, avoidRosNamespace: bool): string {
    if avoidRosNamespace then topic + suffix else prefix + topic + suffix
  }

  /** `None` is the exception of looking beyond the end when the name is nothing but the prefix. */
  function ResolvePrefix(name: string, prefix: string): Option<string> {
    if prefix <= name then
      if |name| == |prefix| then None
      else if name[|prefix|] == '/' then Some(name[|prefix|..])
      else Some("")
    else Some("")
  }

  function DemangleService(prefix: string, topic: string, suffix: string): Option<string> {
    var service := ResolvePrefix(topic, prefix);
    if service.None? || service.value == "" then service
    else
      var p := RFind(service.value, suffix, |service.value|);
      if p.None? || p.value + |suffix| != |service.value| then Some("") else Some(service.value[..p.value])
  }

  function DemangleTopic(topic: string): Option<string> {
    ResolvePrefix(topic, TOPIC_PREFIX)
  }

  /** Tries the topic as one of replies, then as one of requests. */
  function DemangleServiceFromTopic(topic: string): Option<string> {
    var reply := DemangleService(RESPONSE_PREFIX, topic, "Reply");
    if reply.None? || reply.value != "" then reply else DemangleService(REQUESTER_PREFIX, topic, "Request")
  }

  lemma PrefixResolved(prefix: string, rest: string)
    requires rest != ""
    ensures ResolvePrefix(prefix + rest, prefix) == Some(if rest[0] == '/' then rest else "")
  {
    assert (prefix + rest)[|prefix|..] == rest;
  }

  lemma OtherPrefix(name: string, prefix: string)
    requires |prefix| == 2 && |name| > 2 && name[..2] != prefix
    ensures ResolvePrefix(name, prefix) == Some("")
  {
    if prefix <= name {
      assert false;
    }
  }

  lemma SuffixDropped(prefix: string, topic: string, suffix: string)
    requires |suffix| > 0 && suffix[0] != '/'
    ensures DemangleService(prefix, prefix + topic + suffix, suffix)
            == Some(if topic != "" && topic[0] == '/' then topic else "")
  {
    hide RFind;
    assert prefix + topic + suffix == prefix + (topic + suffix);
    PrefixResolved(prefix, topic + suffix);
    RFindSuffix(topic, suffix);
    assert (topic + suffix)[..|topic|] == topic;
  }

  /**
   The topics of requests and replies give back the service name, and the demangler of plain topics gives
   nothing on them, if and only if the name begins with a slash; a plain topic gives back its name
   under the same condition and never passes for a service.
   */
  lemma TopicRoundTrip(name: string)
    requires name != ""
    ensures var request := MakeFqTopic(REQUESTER_PREFIX, name, "Request", false);
            && (DemangleServiceFromTopic(request) == Some(name) <==> name[0] == '/')
            && DemangleTopic(request) == Some("")
            && DemangleService(RESPONSE_PREFIX, request, "Reply") == Some("")
    ensures var reply := MakeFqTopic(RESPONSE_PREFIX, name, "Reply", false);
            && (DemangleServiceFromTopic(reply) == Some(name) <==> name[0] == '/')
            && DemangleTopic(reply) == Some("")
            && DemangleService(REQUESTER_PREFIX, reply, "Request") == Some("")
    ensures var topic := MakeFqTopic(TOPIC_PREFIX, name, "", false);
            && (DemangleTopic(topic) == Some(name) <==> name[0] == '/')
            && DemangleServiceFromTopic(topic) == Some("")
  {
    hide RFind;
    var request, reply := REQUESTER_PREFIX + name + "Request", RESPONSE_PREFIX + name + "Reply";
    var topic := TOPIC_PREFIX + name + "";
    SuffixDropped(REQUESTER_PREFIX, name, "Request");
    SuffixDropped(RESPONSE_PREFIX, name, "Reply");
    assert topic == TOPIC_PREFIX + name;
    PrefixResolved(TOPIC_PREFIX, name);
    assert request[..2] == "rq" && reply[..2] == "rr" && topic[..2] == "rt";
    OtherPrefix(request, RESPONSE_PREFIX);
    OtherPrefix(request, TOPIC_PREFIX);
    OtherPrefix(reply, REQUESTER_PREFIX);
    OtherPrefix(reply, TOPIC_PREFIX);
    OtherPrefix(topic, RESPONSE_PREFIX);
    OtherPrefix(topic, REQUESTER_PREFIX);
  }
}
