/**
 GeneralNames, NameConstraints and raw extensions assembled at the DER level, and parsers for them
 (sections 4.2, 4.2.1.6 and 4.2.1.10 of RFC 5280).
 */
module Names {
  import opened Bytes
  import opened Der
  import opened Oid

  /**
   A GeneralName is verbatim DER, or a typed name given by what the certificate library prints for a
   SubjectAlternativeName holding just that name.
  */
  datatype GeneralName = Raw(der: bytes) | Typed(wrapped: bytes)

  /** `_general_name_der`: verbatim, or the wrapped form without its outer SEQUENCE. */
  function GeneralNameDer(name: GeneralName): Result<bytes, DerError> {
    match name
    case Raw(der) => Success(der)
    case Typed(wrapped) =>
      var t :- TlvAt(wrapped, 0);
      Success(wrapped[t.valueStart..t.valueEnd])
  }

  function GeneralNameDers(names: seq<GeneralName>): Result<seq<bytes>, DerError> {
    if names == [] then Success([])
    else
      var x :- GeneralNameDer(names[0]);
      var xs :- GeneralNameDers(names[1..]);
      Success([x] + xs)
  }

  /** `_assemble_general_names_der`. */
  function AssembleGeneralNames(names: seq<GeneralName>): Result<bytes, DerError> {
    var xs :- GeneralNameDers(names);
    Success(DerString(0x30, Join(xs)))
  }

  function Subtree(base: bytes): bytes {
    DerString(0x30, base)
  }

  function SubtreeList(bases: seq<bytes>): seq<bytes> {
    if bases == [] then [] else [Subtree(bases[0])] + SubtreeList(bases[1..])
  }

  /** One side of the constraints: absent when there are no names. */
  function Subtrees(bases: seq<bytes>, tag: byte): bytes {
    if bases == [] then [] else DerString(tag, Join(SubtreeList(bases)))
  }

  function ConstraintOctets(permitted: seq<bytes>, excluded: seq<bytes>): bytes {
    DerString(0x30, Subtrees(permitted, 0xA0) + Subtrees(excluded, 0xA1))
  }

  /** `_assemble_name_constraints_der`. */
  function AssembleNameConstraints(permitted: seq<GeneralName>, excluded: seq<GeneralName>): Result<bytes, DerError> {
    var ps :- GeneralNameDers(permitted);
    var es :- GeneralNameDers(excluded);
    Success(ConstraintOctets(ps, es))
  }

  // ---- parsers built from the TLV reader alone ----

  /** The contents of `x` when it is one TLV with this tag. */
  function Unwrap(x: bytes, tag: byte): Option<bytes> {
    if IsTlv(x) && x[0] == tag then Some(Value(x)) else None
  }

  /** GeneralNames: a SEQUENCE of TLVs. */
  function ParseGeneralNames(x: bytes): Option<seq<bytes>> {
    var v :- Unwrap(x, 0x30);
    SplitAll(v)
  }

  /** GeneralSubtrees in which every subtree is a SEQUENCE holding exactly one base name. */
  function ParseBases(subtrees: seq<bytes>): Option<seq<bytes>> {
    if subtrees == [] then Some([])
    else
      var base :- Unwrap(subtrees[0], 0x30);
      var bases :- ParseBases(subtrees[1..]);
      if IsTlv(base) then Some([base] + bases) else None
  }

  function ParseSide(v: bytes): Option<seq<bytes>> {
    var subtrees :- SplitAll(v);
    ParseBases(subtrees)
  }

  /** The side with this tag, if it comes next, and the TLVs behind it. */
  function TakeSide(sides: seq<bytes>, tag: byte): Option<(seq<bytes>, seq<bytes>)> {
    if sides == [] || sides[0] == [] || sides[0][0] != tag then Some(([], sides))
    else
      var v :- Unwrap(sides[0], tag);
      var bases :- ParseSide(v);
      if bases == [] then None else Some((bases, sides[1..]))
  }

  /** NameConstraints: an optional `[0]` side, then an optional `[1]` side, each with at least one subtree. */
  function ParseNameConstraints(x: bytes): Option<(seq<bytes>, seq<bytes>)> {
    var v :- Unwrap(x, 0x30);
    var sides :- SplitAll(v);
    var (permitted, more) :- TakeSide(sides, 0xA0);
    var (excluded, end) :- TakeSide(more, 0xA1);
    if end == [] then Some((permitted, excluded)) else None
  }

  predicate AllTlvs(xs: seq<bytes>) {
    forall x <- xs :: IsTlv(x)
  }

  // ---- round trips ----

  /** Stripping what the library wrapped gives the name back exactly when its length is representable. */
  lemma TypedNameIsStripped(g: bytes)
    ensures GeneralNameDer(Typed(DerString(0x30, g))) == Success(g) <==> |g| < Pow256(127)
  {
    hide Pow256, DerString;
    var x := DerString(0x30, g);
    WrittenIsTlv(0x30, g);
    if |g| < Pow256(127) { assert x[TlvAt(x, 0).value.valueStart..|x|] == Value(x); }
    if |g| >= Pow256(127) && GeneralNameDer(Typed(x)) == Success(g) {
      LongTlvIsNotWhole(x, g);
    }
  }

  /** A reader that yields as many octets as were written has read the whole value. */
  lemma LongTlvIsNotWhole(x: bytes, g: bytes)
    requires x == DerString(0x30, g) && TlvAt(x, 0).Success?
    requires TlvAt(x, 0).value.valueEnd - TlvAt(x, 0).value.valueStart == |g|
    ensures |g| < Pow256(127)
  {
    hide Pow256;
    var t := TlvAt(x, 0).value;
    ReaderAcceptsTheGrammar(x, 0, t);
    ShortestLengthForm(x[1..t.valueStart], |g|);
  }

  lemma GeneralNamesRoundTrip(xs: seq<bytes>)
    requires |Join(xs)| < Pow256(127)
    ensures ParseGeneralNames(DerString(0x30, Join(xs))) == Some(xs) <==> AllTlvs(xs)
  {
    hide Pow256, TlvAt;
    WrittenIsTlv(0x30, Join(xs));
    SplitAllInvertsJoin(xs);
  }

  lemma {:induction false} SubtreesAreTlvs(bases: seq<bytes>)
    requires |Join(SubtreeList(bases))| < Pow256(127)
    ensures AllTlvs(SubtreeList(bases)) && |SubtreeList(bases)| == |bases|
    ensures ParseBases(SubtreeList(bases)) == Some(bases) <==> AllTlvs(bases)
  {
    hide TlvAt, IsTlv, Pow256;
    if bases != [] {
      var list := SubtreeList(bases);
      assert list[1..] == SubtreeList(bases[1..]);
      assert |Subtree(bases[0])| <= |Join(list)|;
      WrittenIsTlv(0x30, bases[0]);
      SubtreesAreTlvs(bases[1..]);
      assert bases == [bases[0]] + bases[1..];
      assert Unwrap(list[0], 0x30) == Some(bases[0]);
    }
  }

  lemma SideRoundTrip(bases: seq<bytes>)
    requires |Join(SubtreeList(bases))| < Pow256(127)
    ensures ParseSide(Join(SubtreeList(bases))) == Some(bases) <==> AllTlvs(bases)
  {
    hide Pow256;
    SubtreesAreTlvs(bases);
    SplitAllInvertsJoin(SubtreeList(bases));
  }

  /** One written side in front of the rest. */
  lemma TakesWrittenSide(bases: seq<bytes>, tag: byte, more: seq<bytes>)
    requires tag % 32 != 31 && |Subtrees(bases, tag)| < Pow256(127)
    requires more != [] ==> more[0] != [] && more[0][0] != tag
    ensures var sides := if bases == [] then more else [Subtrees(bases, tag)] + more;
            TakeSide(sides, tag) == Some((bases, more)) <==> AllTlvs(bases)
    ensures bases != [] ==> IsTlv(Subtrees(bases, tag)) && Subtrees(bases, tag)[0] == tag
  {
    hide TlvAt, Pow256;
    if bases != [] {
      var v := Join(SubtreeList(bases));
      WrittenIsTlv(tag, v);
      SideRoundTrip(bases);
      assert ([Subtrees(bases, tag)] + more)[1..] == more;
    }
  }

  /**
   The parser recovers the exact permitted and excluded lists, in order and with duplicates, an empty side
   being absent, if and only if every name is one TLV.
  */
  lemma NameConstraintsRoundTrip(permitted: seq<bytes>, excluded: seq<bytes>)
    requires |Subtrees(permitted, 0xA0) + Subtrees(excluded, 0xA1)| < Pow256(127)
    ensures ParseNameConstraints(ConstraintOctets(permitted, excluded)) == Some((permitted, excluded))
            <==> AllTlvs(permitted) && AllTlvs(excluded)
  {
    hide TlvAt, IsTlv, ParseSide, SplitAll, Pow256;
    var second := if excluded == [] then [] else [Subtrees(excluded, 0xA1)];
    var sides := if permitted == [] then second else [Subtrees(permitted, 0xA0)] + second;
    TakesWrittenSide(excluded, 0xA1, []);
    TakesWrittenSide(permitted, 0xA0, second);
    SidesJoin(permitted, excluded);
    WrittenIsTlv(0x30, Join(sides));
    SplitAllInvertsJoin(sides);
    assert [Subtrees(excluded, 0xA1)] + [] == [Subtrees(excluded, 0xA1)];
    if ParseNameConstraints(ConstraintOctets(permitted, excluded)) == Some((permitted, excluded)) {
      assert TakeSide(sides, 0xA0).value == (permitted, second) by {
        if permitted != [] { assert sides[1..] == second; }
      }
    }
  }

  lemma SidesJoin(permitted: seq<bytes>, excluded: seq<bytes>)
    ensures var second := if excluded == [] then [] else [Subtrees(excluded, 0xA1)];
            var sides := if permitted == [] then second else [Subtrees(permitted, 0xA0)] + second;
            Join(sides) == Subtrees(permitted, 0xA0) + Subtrees(excluded, 0xA1)
  {
    var second := if excluded == [] then [] else [Subtrees(excluded, 0xA1)];
    assert Join(second) == Subtrees(excluded, 0xA1) by { JoinSnoc([], Subtrees(excluded, 0xA1)); assert [] + second == second; }
    if permitted != [] { assert ([Subtrees(permitted, 0xA0)] + second)[1..] == second; }
  }

  /** `name` stands for the octets `x`, given verbatim or wrapped by the library. */
  ghost predicate Denotes(name: GeneralName, x: bytes) {
    name == Raw(x) || (name == Typed(DerString(0x30, x)) && |x| < Pow256(127))
  }

  ghost predicate DenoteAll(names: seq<GeneralName>, xs: seq<bytes>) {
    |names| == |xs| && forall i | 0 <= i < |names| :: Denotes(names[i], xs[i])
  }

  lemma DenotedName(name: GeneralName, x: bytes)
    requires Denotes(name, x)
    ensures GeneralNameDer(name) == Success(x)
  {
    TypedNameIsStripped(x);
  }

  lemma {:induction false} DenotedNames(names: seq<GeneralName>, xs: seq<bytes>)
    requires DenoteAll(names, xs)
    ensures GeneralNameDers(names) == Success(xs)
  {
    hide GeneralNameDer, Denotes;
    if names != [] {
      DenotedName(names[0], xs[0]);
      DenotedNames(names[1..], xs[1..]);
      assert [xs[0]] + xs[1..] == xs;
    }
  }

  /**
   From raw and typed names in any mixture to the extension value and back: the assembled SAN and
   NameConstraints parse to exactly the TLVs the names stand for, if and only if each of those is one TLV.
  */
  lemma AssembledNamesParse(permitted: seq<GeneralName>, ps: seq<bytes>, excluded: seq<GeneralName>, es: seq<bytes>)
    requires DenoteAll(permitted, ps) && DenoteAll(excluded, es)
    requires |Subtrees(ps, 0xA0) + Subtrees(es, 0xA1)| < Pow256(127) && |Join(ps)| < Pow256(127)
    ensures AssembleNameConstraints(permitted, excluded).Success? && AssembleGeneralNames(permitted).Success?
    ensures ParseNameConstraints(AssembleNameConstraints(permitted, excluded).value) == Some((ps, es))
            <==> AllTlvs(ps) && AllTlvs(es)
    ensures ParseGeneralNames(AssembleGeneralNames(permitted).value) == Some(ps) <==> AllTlvs(ps)
  {
    hide Pow256;
    DenotedNames(permitted, ps);
    DenotedNames(excluded, es);
    NameConstraintsRoundTrip(ps, es);
    GeneralNamesRoundTrip(ps);
  }

  // ---- raw extensions ----

  function CriticalOctets(critical: bool): bytes {
    if critical then [0x01, 0x01, 0xFF] else []
  }

  /** `_assemble_extension`, from the parsed parts on. */
  function AssembleExtension(arcs: seq<nat>, critical: bool, value: bytes): Result<bytes, OidError> {
    var oid :- EncodeOid(arcs);
    Success(DerString(0x30, oid + (CriticalOctets(critical) + DerString(0x04, value))))
  }

  /** Extension ::= SEQUENCE { extnID, critical DEFAULT FALSE, extnValue }, strictly. */
  function ParseExtension(x: bytes): Option<(seq<nat>, bool, bytes)> {
    var v :- Unwrap(x, 0x30);
    var (oid, v1) :- Split(v);
    var body :- Unwrap(oid, 0x06);
    var arcs :- DecodeOidBody(body);
    var critical := |v1| >= 3 && v1[..3] == CriticalOctets(true);
    var value :- Unwrap(if critical then v1[3..] else v1, 0x04);
    Some((arcs, critical, value))
  }

  /** A structured raw extension is one TLV that carries its identifier, criticality and value. */
  lemma ExtensionRoundTrip(arcs: seq<nat>, critical: bool, value: bytes)
    ensures AssembleExtension(arcs, critical, value).Success? <==> ValidArcs(arcs)
    ensures ValidArcs(arcs) && |AssembleExtension(arcs, critical, value).value| < Pow256(127)
            ==> IsTlv(AssembleExtension(arcs, critical, value).value)
                && ParseExtension(AssembleExtension(arcs, critical, value).value) == Some((arcs, critical, value))
  {
    hide TlvAt, DecodeOidBody, OidBody, IsTlv, Value, Split, Pow256;
    if ValidArcs(arcs) && |AssembleExtension(arcs, critical, value).value| < Pow256(127) {
      var body := OidBody(arcs);
      var oid, octets := DerString(0x06, body), DerString(0x04, value);
      var v1 := CriticalOctets(critical) + octets;
      WrittenIsTlv(0x30, oid + v1);
      WrittenIsTlv(0x06, body);
      WrittenIsTlv(0x04, value);
      SplitTlv(oid, v1);
      OidBodyDecodesExactly(body, arcs);
      CriticalIsSeen(critical, octets);
    }
  }

  lemma CriticalIsSeen(critical: bool, octets: bytes)
    requires octets != [] && octets[0] == 0x04
    ensures var v := CriticalOctets(critical) + octets;
            && (|v| >= 3 && v[..3] == CriticalOctets(true) <==> critical)
            && (critical ==> v[3..] == octets) && (!critical ==> v == octets)
  {
    var v := CriticalOctets(critical) + octets;
    assert critical ==> v[..3] == CriticalOctets(true) && v[3..] == octets;
    assert !critical ==> v == octets && v[0] != CriticalOctets(true)[0];
  }

  // ---- the tags, spelled out ----

  /**
   The octets of NameConstraints: `[0]` around the permitted and `[1]` around the excluded subtrees, each name in
   a SEQUENCE, and a side without names left out; and of GeneralNames.
  */
  lemma ConstraintsInOctets(a: bytes, b: bytes, c: bytes)
    ensures AssembleNameConstraints([Raw(a)], [Raw(b), Raw(c)])
            == Success(DerString(0x30, DerString(0xA0, DerString(0x30, a))
                                       + DerString(0xA1, DerString(0x30, b) + DerString(0x30, c))))
    ensures AssembleNameConstraints([], [Raw(b)]) == Success(DerString(0x30, DerString(0xA1, DerString(0x30, b))))
    ensures AssembleNameConstraints([Raw(a)], []) == Success(DerString(0x30, DerString(0xA0, DerString(0x30, a))))
    ensures AssembleGeneralNames([Raw(b), Raw(c)]) == Success(DerString(0x30, b + c))
  {
    RawNames(a, b);
    RawNames(b, c);
    hide DerString, GeneralNameDers, Join;
    TwoSubtrees(a, b);
    TwoSubtrees(b, c);
    TwoJoined(b, c);
    var left, right := DerString(0xA0, DerString(0x30, a)), DerString(0xA1, DerString(0x30, b));
    assert left + [] == left && [] + right == right;
  }

  lemma RawNames(a: bytes, b: bytes)
    ensures GeneralNameDers([]) == Success([]) && GeneralNameDers([Raw(a)]) == Success([a])
    ensures GeneralNameDers([Raw(b)]) == Success([b]) && GeneralNameDers([Raw(a), Raw(b)]) == Success([a, b])
  {
    DenotedNames([Raw(a)], [a]);
    DenotedNames([Raw(b)], [b]);
    DenotedNames([Raw(a), Raw(b)], [a, b]);
  }

  lemma TwoSubtrees(a: bytes, b: bytes)
    ensures Join(SubtreeList([a])) == DerString(0x30, a) && Join(SubtreeList([b])) == DerString(0x30, b)
    ensures Join(SubtreeList([a, b])) == DerString(0x30, a) + DerString(0x30, b)
  {
    assert [a][1..] == [] && [b][1..] == [] && [a, b][1..] == [b];
    assert SubtreeList([a]) == [Subtree(a)] && SubtreeList([b]) == [Subtree(b)];
    assert SubtreeList([a, b]) == [Subtree(a), Subtree(b)];
    hide DerString, SubtreeList;
    TwoJoined(Subtree(a), Subtree(b));
  }

  lemma TwoJoined(x: bytes, y: bytes)
    ensures Join([x]) == x && Join([y]) == y && Join([x, y]) == x + y
  {
    assert [x, y][1..] == [y] && [y][1..] == [] && [x][1..] == [];
    assert x + [] == x && y + [] == y;
  }

  /** The octets of an extension with identifier 2.5.29.30, critical and not. */
  lemma ExtensionInOctets(value: bytes)
    ensures AssembleExtension([2, 5, 29, 30], true, value)
            == Success(DerString(0x30, [0x06, 3, 0x55, 0x1D, 0x1E] + ([0x01, 0x01, 0xFF] + DerString(0x04, value))))
    ensures AssembleExtension([2, 5, 29, 30], false, value)
            == Success(DerString(0x30, [0x06, 3, 0x55, 0x1D, 0x1E] + DerString(0x04, value)))
  {
    KnownIdentifiers();
    hide DerString, EncodeOid;
    assert [] + DerString(0x04, value) == DerString(0x04, value);
  }
}
