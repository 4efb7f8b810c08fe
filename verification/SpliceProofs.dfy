/** What the rewriting does to a certificate, stated on its fields. */
module SpliceProofs {
  import opened Bytes
  import opened Der
  import opened Certificates
  import opened Splice

  /** The contents of the SEQUENCE OF Extension inside a `[3]` TLV. */
  function ExtensionOctets(wrapper: bytes): Option<bytes> {
    if !IsTlv(wrapper) then None
    else
      var (list, _) :- Split(Value(wrapper));
      if IsTlv(list) && list[0] == SEQUENCE then Some(Value(list)) else None
  }

  /** What stands behind that SEQUENCE, still inside the `[3]` TLV. */
  function BehindList(wrapper: bytes): bytes
    requires ExtensionOctets(wrapper).Some?
  {
    Split(Value(wrapper)).value.1
  }

  /** A `[3]` TLV as section 4.1 of RFC 5280 has it: around one SEQUENCE and nothing else. */
  predicate WrapsOneSequence(wrapper: bytes) {
    IsTlv(wrapper) && IsTlv(Value(wrapper)) && Value(wrapper)[0] == SEQUENCE
  }

  predicate IsName(raw: bytes) {
    IsTlv(raw) && raw[0] == SEQUENCE
  }

  /** The inputs on which the rewriting is meant to work, for a certificate with these fields. */
  predicate Applicable(t: Tbs, subject: Option<bytes>, issuer: Option<bytes>, blobs: seq<bytes>) {
    && (subject.Some? ==> IsName(subject.value))
    && (issuer.Some? ==> IsName(issuer.value))
    && (blobs != [] ==> t.extensions.Some? && ExtensionOctets(t.extensions.value).Some?)
  }

  function ExtendedWrapper(wrapper: bytes, blobs: seq<bytes>): bytes
    requires ExtensionOctets(wrapper).Some?
  {
    DerString(EXTENSIONS_TAG, DerString(SEQUENCE, ExtensionOctets(wrapper).value + Join(blobs)))
  }

  /** Fields `t` with the given Names and wrapper in place of its own. */
  function EditedNames(t: Tbs, subject: Option<bytes>, issuer: Option<bytes>, wrapper: Option<bytes>): Tbs {
    t.(subject := if subject.Some? then subject.value else t.subject,
       issuer := if issuer.Some? then issuer.value else t.issuer,
       extensions := if wrapper.Some? then wrapper else t.extensions)
  }

  /** The fields after the edits: the given Names, the extended wrapper, and everything else as it was. */
  function Edited(t: Tbs, subject: Option<bytes>, issuer: Option<bytes>, blobs: seq<bytes>): Tbs
    requires Applicable(t, subject, issuer, blobs)
  {
    EditedNames(t, subject, issuer, if blobs == [] then None else Some(ExtendedWrapper(t.extensions.value, blobs)))
  }

  function SignatureTlv(tbsTlv: bytes, sign: Signer): bytes {
    DerString(BIT_STRING, [0] + sign(tbsTlv))
  }

  /** The certificate that carries fields `t`, signed over exactly its TBS TLV. */
  function Signed(t: Tbs, sigAlg: bytes, sign: Signer): Certificate {
    var tbsTlv := DerString(SEQUENCE, TbsValue(t));
    Certificate(tbsTlv, t, sigAlg, SignatureTlv(tbsTlv, sign))
  }

  /** The contents of the outer SEQUENCE have a length the reader can represent. */
  predicate Representable(c: Certificate) {
    |c.tbsTlv| + |c.sigAlg| + |c.signature| < Pow256(127)
  }

  // ---- reading a field where it stands ----

  predicate Holds(buf: bytes, pos: nat, x: bytes) {
    pos + |x| <= |buf| && buf[pos..pos + |x|] == x
  }

  lemma HoldsParts(buf: bytes, pos: nat, x: bytes, y: bytes)
    ensures Holds(buf, pos, x + y) <==> Holds(buf, pos, x) && Holds(buf, pos + |x|, y)
  {
    var n := |x + y|;
    if pos + n <= |buf| {
      SliceOfSlice(buf, pos, pos + n, 0, |x|);
      SliceOfSlice(buf, pos, pos + n, |x|, n);
      assert buf[pos..pos + n] == buf[pos..pos + |x|] + buf[pos + |x|..pos + n];
      assert (x + y)[0..|x|] == x && (x + y)[|x|..n] == y;
    }
  }

  lemma ReadHeld(buf: bytes, pos: nat, x: bytes)
    requires Holds(buf, pos, x) && IsTlv(x)
    ensures |x| >= 2 && TlvAt(buf, pos) == Success(Tlv(x[0], pos, pos + |x| - |Value(x)|, pos + |x|))
    ensures Holds(buf, pos + |x| - |Value(x)|, Value(x))
  {
    ReadingIsLocal(x, 0, buf, pos);
    assert x == x[..|x| - |Value(x)|] + Value(x);
    HoldsParts(buf, pos, x[..|x| - |Value(x)|], Value(x));
  }

  lemma {:induction false} FindHeldExtensions(
      buf: bytes, pos: nat, unique: seq<bytes>, extensions: Option<bytes>, rest: bytes)
    requires ValidTrailer(unique, extensions, rest)
    requires Holds(buf, pos, TrailerOctets(unique, extensions, rest))
    ensures var end, at := pos + |TrailerOctets(unique, extensions, rest)|, pos + |Join(unique)|;
            FindExtensions(buf, pos, end) == Success(
              if extensions.None? then None
              else Some(Tlv(EXTENSIONS_TAG, at, at + |extensions.value| - |Value(extensions.value)|,
                            at + |extensions.value|)))
    decreases |unique|
  {
    hide TlvAt;
    if unique == [] {
      assert TrailerOctets(unique, extensions, rest) == Optional(extensions) + rest;
      HoldsParts(buf, pos, Optional(extensions), rest);
      if extensions.Some? { ReadHeld(buf, pos, extensions.value); }
    } else {
      var x, tail := unique[0], TrailerOctets(unique[1..], extensions, rest);
      assert x in unique && forall y <- unique[1..] :: y in unique;
      TrailerCons(unique, extensions, rest);
      HoldsParts(buf, pos, x, tail);
      ReadHeld(buf, pos, x);
      FindHeldExtensions(buf, pos + |x|, unique[1..], extensions, rest);
    }
  }

  // ---- the walk finds the fields of the strict reader ----

  /** The part of a TBS value in front of the issuer. */
  function Front(t: Tbs): bytes {
    Optional(t.version) + (t.serial + t.algorithm)
  }

  function BackOf(t: Tbs): bytes {
    t.spki + TrailerOctets(t.unique, t.extensions, t.rest)
  }

  lemma TbsValueParts(t: Tbs)
    ensures TbsValue(t) == Front(t) + (t.issuer + (t.validity + (t.subject + BackOf(t))))
  {
  }

  /** The offsets belonging to fields `t` in a TBS value that starts at `base`. */
  function LayoutOf(t: Tbs, base: nat, sigAlgEnd: nat): Layout
    requires ValidTbs(t)
  {
    var issuer := base + |Front(t)|;
    var subject := issuer + |t.issuer| + |t.validity|;
    var wrapper := subject + |t.subject| + |t.spki| + |Join(t.unique)|;
    Layout(base, base + |TbsValue(t)|, sigAlgEnd, issuer, issuer + |t.issuer|, subject, subject + |t.subject|,
           if t.extensions.None? then None
           else Some(Tlv(EXTENSIONS_TAG, wrapper, wrapper + |t.extensions.value| - |Value(t.extensions.value)|,
                         wrapper + |t.extensions.value|)))
  }

  lemma WalkFindsTheFields(der: bytes, c: Certificate)
    requires ReadCertificate(der) == Some(c)
    ensures Walk(der).Success? && ValidTbs(c.tbs)
    ensures var l := Walk(der).value;
            && l == LayoutOf(c.tbs, l.tbsStart, l.tbsEnd + |c.sigAlg|)
            && Holds(der, l.tbsStart, TbsValue(c.tbs)) && Holds(der, l.tbsEnd, c.sigAlg)
            && l.tbsEnd <= |der| && der[l.tbsEnd..] == c.sigAlg + c.signature
  {
    hide TlvAt, IsTlv, Holds, ReadCertificate, FindExtensions, Value, TbsValue, Join;
    var body := OuterParts(der, c);
    var base, t := body + |c.tbsTlv| - |Value(c.tbsTlv)|, c.tbs;
    TbsValueParts(t);
    WalkFront(der, base, t, t.issuer + (t.validity + (t.subject + BackOf(t))));
    var trailer := TrailerOctets(t.unique, t.extensions, t.rest);
    WalkBack(der, base + |Front(t)|, t, trailer);
    FindHeldExtensions(der, base + |TbsValue(t)| - |trailer|, t.unique, t.extensions, t.rest);
  }

  /** The outer structure, where it stands in `der`. */
  lemma OuterParts(der: bytes, c: Certificate) returns (body: nat)
    requires ReadCertificate(der) == Some(c)
    ensures ValidTbs(c.tbs) && IsTlv(c.tbsTlv) && Value(c.tbsTlv) == TbsValue(c.tbs)
    ensures && TlvAt(der, 0).Success? && TlvAt(der, 0).value.tag == SEQUENCE && TlvAt(der, 0).value.valueStart == body
    ensures var tbsEnd := body + |c.tbsTlv|;
            && TlvAt(der, body) == Success(Tlv(SEQUENCE, body, tbsEnd - |Value(c.tbsTlv)|, tbsEnd))
            && EndsAt(der, tbsEnd, tbsEnd + |c.sigAlg|)
            && Holds(der, tbsEnd - |Value(c.tbsTlv)|, TbsValue(c.tbs)) && Holds(der, tbsEnd, c.sigAlg)
            && tbsEnd <= |der| && der[tbsEnd..] == c.sigAlg + c.signature
  {
    hide TlvAt, ReadCertificate, ReadTbs, ValidTbs, TbsValue, Holds;
    CertificateReadsExactly(der, c);
    TbsReadsExactly(Value(c.tbsTlv), c.tbs);
    body := HeldContents(der);
    BodyParts(der, body, c.tbsTlv, c.sigAlg, c.signature);
    HoldsParts(der, body, c.tbsTlv, c.sigAlg + c.signature);
    HeldToTheEnd(der, body + |c.tbsTlv|, c.sigAlg + c.signature);
  }

  lemma HeldContents(der: bytes) returns (body: nat)
    requires IsTlv(der)
    ensures TlvAt(der, 0) == Success(Tlv(der[0], 0, body, |der|)) && Holds(der, body, Value(der))
  {
    ReadHeld(der, 0, der);
    body := |der| - |Value(der)|;
  }

  lemma HeldToTheEnd(der: bytes, pos: nat, x: bytes)
    requires pos + |x| == |der|
    ensures Holds(der, pos, x) <==> der[pos..] == x
  {
  }

  lemma BodyParts(der: bytes, body: nat, tbs: bytes, sigAlg: bytes, tail: bytes)
    requires Holds(der, body, tbs + (sigAlg + tail)) && IsTlv(tbs) && IsTlv(sigAlg)
    ensures var end := body + |tbs|;
            && TlvAt(der, body) == Success(Tlv(tbs[0], body, end - |Value(tbs)|, end))
            && EndsAt(der, end, end + |sigAlg|)
            && Holds(der, end - |Value(tbs)|, Value(tbs)) && Holds(der, end, sigAlg)
  {
    hide TlvAt, IsTlv, Holds;
    HoldsParts(der, body, tbs, sigAlg + tail);
    HoldsParts(der, body + |tbs|, sigAlg, tail);
    ReadHeld(der, body, tbs);
    ReadNext(der, body + |tbs|, sigAlg, tail);
  }

  /** The walk up to the issuer. */
  lemma WalkFront(der: bytes, base: nat, t: Tbs, tail: bytes)
    requires ValidTbs(t) && Holds(der, base, Front(t) + tail)
    ensures TlvAt(der, base).Success?
    ensures var first := TlvAt(der, base).value;
            && (first.tag == VERSION_TAG <==> t.version.Some?)
            && (t.version.Some? ==> EndsAt(der, first.valueEnd, base + |Front(t)| - |t.algorithm|))
            && (t.version.None? ==> first.valueEnd == base + |Front(t)| - |t.algorithm|)
            && EndsAt(der, base + |Front(t)| - |t.algorithm|, base + |Front(t)|)
            && Holds(der, base + |Front(t)|, tail)
  {
    hide TlvAt, IsTlv, Holds;
    var v1 := t.algorithm + tail;
    var v0 := t.serial + v1;
    assert Front(t) + tail == Optional(t.version) + v0;
    if t.version.Some? { ReadNext(der, base, t.version.value, v0); } else { assert Optional(t.version) + v0 == v0; }
    var p0 := base + |Optional(t.version)|;
    ReadNext(der, p0, t.serial, v1);
    ReadNext(der, p0 + |t.serial|, t.algorithm, tail);
  }

  /** The walk from the issuer to the public key. */
  lemma WalkBack(der: bytes, pos: nat, t: Tbs, tail: bytes)
    requires ValidTbs(t) && Holds(der, pos, t.issuer + (t.validity + (t.subject + (t.spki + tail))))
    ensures var issuerEnd := pos + |t.issuer|;
            var subjectStart := issuerEnd + |t.validity|;
            var subjectEnd := subjectStart + |t.subject|;
            && EndsAt(der, pos, issuerEnd) && EndsAt(der, issuerEnd, subjectStart)
            && EndsAt(der, subjectStart, subjectEnd) && EndsAt(der, subjectEnd, subjectEnd + |t.spki|)
            && Holds(der, subjectEnd + |t.spki|, tail)
  {
    hide TlvAt, IsTlv, Holds;
    var v3 := t.spki + tail;
    var v2 := t.subject + v3;
    var v1 := t.validity + v2;
    ReadNext(der, pos, t.issuer, v1);
    ReadNext(der, pos + |t.issuer|, t.validity, v2);
    ReadNext(der, pos + |t.issuer| + |t.validity|, t.subject, v3);
    ReadNext(der, pos + |t.issuer| + |t.validity| + |t.subject|, t.spki, tail);
  }

  lemma ReadNext(der: bytes, pos: nat, x: bytes, y: bytes)
    requires Holds(der, pos, x + y) && IsTlv(x)
    ensures EndsAt(der, pos, pos + |x|) && TlvAt(der, pos).value.tag == x[0]
    ensures Holds(der, pos + |x|, y)
  {
    HoldsParts(der, pos, x, y);
    ReadHeld(der, pos, x);
  }

  predicate EndsAt(der: bytes, pos: nat, end: nat) {
    TlvAt(der, pos).Success? && TlvAt(der, pos).value.valueEnd == end
  }

  // ---- the edits ----

  predicate InOrder(edits: seq<Edit>) {
    forall i, j | 0 <= i < j < |edits| :: edits[i].start <= edits[j].start
  }

  /** The sort gives the same edits in order of their starts. */
  lemma {:induction false} SortSorts(edits: seq<Edit>)
    ensures InOrder(SortByStart(edits)) && multiset(SortByStart(edits)) == multiset(edits)
  {
    if edits != [] {
      SortSorts(edits[1..]);
      InsertSorts(edits[0], SortByStart(edits[1..]));
      assert edits == [edits[0]] + edits[1..];
    }
  }

  lemma {:induction false} InsertSorts(e: Edit, edits: seq<Edit>)
    requires InOrder(edits)
    ensures InOrder(Insert(e, edits)) && multiset(Insert(e, edits)) == multiset{e} + multiset(edits)
    ensures Insert(e, edits) != [] && (Insert(e, edits)[0] == e || (edits != [] && Insert(e, edits)[0] == edits[0]))
  {
    if edits != [] && e.start > edits[0].start {
      InsertSorts(e, edits[1..]);
      assert edits == [edits[0]] + edits[1..];
      var rest := Insert(e, edits[1..]);
      InOrderCons(edits[0], rest);
    }
  }

  lemma InOrderCons(e: Edit, rest: seq<Edit>)
    requires InOrder(rest) && (rest != [] ==> e.start <= rest[0].start)
    ensures InOrder([e] + rest)
  {
    var s := [e] + rest;
    forall i, j | 0 <= i < j < |s| ensures s[i].start <= s[j].start {
      if i == 0 { assert rest[0].start <= rest[j - 1].start; }
    }
  }

  /** Sorting leaves edits that are already in order alone. */
  lemma {:induction false} SortKeepsOrder(edits: seq<Edit>)
    requires InOrder(edits)
    ensures SortByStart(edits) == edits
  {
    if edits != [] { SortKeepsOrder(edits[1..]); }
  }

  lemma ApplyOne(der: bytes, cursor: nat, end: nat, kept: bytes, was: bytes, tail: bytes, e: Edit, edits: seq<Edit>)
    requires Holds(der, cursor, kept + (was + tail))
    requires e.start == cursor + |kept| && e.end == e.start + |was|
    ensures ApplyEdits(der, cursor, end, [e] + edits) == kept + (e.replacement + ApplyEdits(der, e.end, end, edits))
    ensures Holds(der, e.end, tail)
  {
    hide Holds, Slice;
    HoldsParts(der, cursor, kept, was + tail);
    HoldsParts(der, e.start, was, tail);
    HeldSlice(der, cursor, kept);
    assert ([e] + edits)[1..] == edits && ([e] + edits)[0] == e;
  }

  /** An edit that puts back what was there can be left out. */
  lemma TrivialEdit(der: bytes, cursor: nat, end: nat, e: Edit, edits: seq<Edit>)
    requires cursor <= e.start <= e.end <= |der| && e.replacement == der[e.start..e.end]
    requires if edits == [] then e.end <= end <= |der| else e.end <= edits[0].start <= |der|
    ensures ApplyEdits(der, cursor, end, [e] + edits) == ApplyEdits(der, cursor, end, edits)
  {
    assert ([e] + edits)[1..] == edits;
    var stop := if edits == [] then end else edits[0].start;
    assert der[cursor..stop] == der[cursor..e.start] + (e.replacement + der[e.end..stop]);
    if edits != [] {
      var more := edits[0].replacement + ApplyEdits(der, edits[0].end, end, edits[1..]);
      ConcatAssociates(der[cursor..e.start], e.replacement, der[e.end..stop], more);
    }
  }

  lemma NameEditStep(der: bytes, cursor: nat, end: nat, kept: bytes, was: bytes, tail: bytes,
                     raw: Option<bytes>, edits: seq<Edit>)
    requires Holds(der, cursor, kept + (was + tail))
    requires var next := cursor + |kept| + |was|;
             if edits == [] then next <= end <= |der| else next <= edits[0].start <= |der|
    ensures var at := cursor + |kept|;
            ApplyEdits(der, cursor, end, NameEdit(at, at + |was|, raw) + edits)
            == kept + ((if raw.Some? then raw.value else was) + ApplyEdits(der, at + |was|, end, edits))
    ensures Holds(der, cursor + |kept| + |was|, tail)
  {
    hide ApplyEdits;
    var at := cursor + |kept|;
    var e := Edit(at, at + |was|, if raw.Some? then raw.value else was);
    ApplyOne(der, cursor, end, kept, was, tail, e, edits);
    if raw.None? {
      HoldsParts(der, cursor, kept, was + tail);
      HoldsParts(der, at, was, tail);
      TrivialEdit(der, cursor, end, e, edits);
      assert NameEdit(at, at + |was|, raw) + edits == edits;
    }
  }

  /** Both Name edits, in front of whatever edits follow. */
  lemma NamesEdited(der: bytes, base: nat, end: nat, front: bytes, t: Tbs, back: bytes,
                    subject: Option<bytes>, issuer: Option<bytes>, edits: seq<Edit>)
    requires Holds(der, base, front + (t.issuer + (t.validity + (t.subject + back))))
    requires var next := base + |front| + |t.issuer| + |t.validity| + |t.subject|;
             if edits == [] then next <= end <= |der| else next <= edits[0].start <= |der|
    ensures var issuerAt := base + |front|;
            var subjectAt := issuerAt + |t.issuer| + |t.validity|;
            ApplyEdits(der, base, end, NameEdit(issuerAt, issuerAt + |t.issuer|, issuer)
                                       + (NameEdit(subjectAt, subjectAt + |t.subject|, subject) + edits))
            == front + ((if issuer.Some? then issuer.value else t.issuer)
                        + (t.validity + ((if subject.Some? then subject.value else t.subject)
                                         + ApplyEdits(der, subjectAt + |t.subject|, end, edits))))
  {
    hide Holds, ApplyEdits;
    var issuerAt := base + |front|;
    var subjectAt := issuerAt + |t.issuer| + |t.validity|;
    NameEditStep(der, base, end, front, t.issuer, t.validity + (t.subject + back), issuer,
                 NameEdit(subjectAt, subjectAt + |t.subject|, subject) + edits);
    NameEditStep(der, issuerAt + |t.issuer|, end, t.validity, t.subject, back, subject, edits);
  }

  function WrapperEdit(t: Tbs, pos: nat, wrapper: Option<bytes>): seq<Edit>
    requires wrapper.Some? ==> t.extensions.Some?
  {
    var at := pos + |t.spki| + |Join(t.unique)|;
    if wrapper.None? then [] else NameEdit(at, at + |t.extensions.value|, wrapper)
  }

  /** The edit of the `[3]` wrapper, in the part behind the subject. */
  lemma BackEdited(der: bytes, pos: nat, t: Tbs, wrapper: Option<bytes>)
    requires Holds(der, pos, BackOf(t)) && (wrapper.Some? ==> t.extensions.Some?)
    ensures ApplyEdits(der, pos, pos + |BackOf(t)|, WrapperEdit(t, pos, wrapper))
            == BackOf(if wrapper.Some? then t.(extensions := wrapper) else t)
  {
    hide Holds, ApplyEdits, BackOf, Join;
    if wrapper.Some? {
      WrapperInBack(t);
      WrapperInBack(t.(extensions := wrapper));
      WrapperEdited(der, pos, t.spki + Join(t.unique), t.extensions.value, t.rest, wrapper.value);
    } else {
      KeepRest(der, pos, BackOf(t));
    }
  }

  lemma WrapperEdited(der: bytes, pos: nat, kept: bytes, was: bytes, rest: bytes, wrapper: bytes)
    requires Holds(der, pos, kept + (was + rest))
    ensures var at := pos + |kept|;
            ApplyEdits(der, pos, at + |was| + |rest|, [Edit(at, at + |was|, wrapper)]) == kept + (wrapper + rest)
  {
    hide ApplyEdits, Holds;
    var e := Edit(pos + |kept|, pos + |kept| + |was|, wrapper);
    ApplyOne(der, pos, e.end + |rest|, kept, was, rest, e, []);
    assert [e] + [] == [e];
    KeepRest(der, e.end, rest);
  }

  lemma WrapperEditPlace(t: Tbs, pos: nat, wrapper: Option<bytes>)
    requires wrapper.Some? ==> t.extensions.Some?
    ensures WrapperEdit(t, pos, wrapper) != [] ==> pos <= WrapperEdit(t, pos, wrapper)[0].start <= pos + |BackOf(t)|
  {
  }

  lemma WrapperInBack(t: Tbs)
    requires t.extensions.Some?
    ensures BackOf(t) == (t.spki + Join(t.unique)) + (t.extensions.value + t.rest)
  {
  }

  lemma KeepRest(der: bytes, pos: nat, x: bytes)
    requires Holds(der, pos, x)
    ensures ApplyEdits(der, pos, pos + |x|, []) == x
  {
  }

  lemma EditedParts(t: Tbs, subject: Option<bytes>, issuer: Option<bytes>, wrapper: Option<bytes>)
    ensures TbsValue(EditedNames(t, subject, issuer, wrapper))
            == Front(t) + ((if issuer.Some? then issuer.value else t.issuer)
                           + (t.validity + ((if subject.Some? then subject.value else t.subject)
                                            + BackOf(if wrapper.Some? then t.(extensions := wrapper) else t))))
  {
    var edited := EditedNames(t, subject, issuer, wrapper);
    TbsValueParts(edited);
    assert Front(edited) == Front(t);
    assert BackOf(edited) == BackOf(if wrapper.Some? then t.(extensions := wrapper) else t);
  }

  /** Applying the collected edits to a TBS value gives the value of the edited fields. */
  lemma EditedValue(der: bytes, base: nat, t: Tbs, subject: Option<bytes>, issuer: Option<bytes>, wrapper: Option<bytes>)
    requires ValidTbs(t) && Holds(der, base, TbsValue(t))
    requires wrapper.Some? ==> t.extensions.Some?
    ensures var l := LayoutOf(t, base, 0);
            ApplyEdits(der, base, l.tbsEnd,
                       NameEdit(l.issuerStart, l.issuerEnd, issuer)
                       + (NameEdit(l.subjectStart, l.subjectEnd, subject) + WrapperEdit(t, l.subjectEnd, wrapper)))
            == TbsValue(EditedNames(t, subject, issuer, wrapper))
  {
    hide TlvAt, IsTlv, Value, ValidTbs, ApplyEdits, TbsValue, Front, BackOf, NameEdit;
    var l, back := LayoutOf(t, base, 0), BackOf(t);
    TbsValueParts(t);
    EditedParts(t, subject, issuer, wrapper);
    var tail := t.issuer + (t.validity + t.subject);
    assert Front(t) + (t.issuer + (t.validity + (t.subject + back))) == (Front(t) + tail) + back;
    HoldsParts(der, base, Front(t) + tail, back);
    BackEdited(der, l.subjectEnd, t, wrapper);
    WrapperEditPlace(t, l.subjectEnd, wrapper);
    NamesEdited(der, base, l.tbsEnd, Front(t), t, back, subject, issuer, WrapperEdit(t, l.subjectEnd, wrapper));
  }

  // ---- the rewriting of a well-formed certificate ----

  lemma ValidatesNames(raw: Option<bytes>)
    ensures ValidateSingle(raw).Success? <==> (raw.Some? ==> IsName(raw.value))
  {
  }

  /** Among them one whose length form the standard rules out. */
  lemma ReservedFormIsAName()
    ensures ValidateSingle(Some([SEQUENCE, 0xFF] + Zeros(127))) == Success(())
  {
    hide TlvAt, Zeros;
    ReservedFormIsAccepted();
  }

  // ---- what is read as the extension list ----

  /** All that stands behind the header of the `[3]` wrapper, to the end of the certificate. */
  function BehindWrapper(c: Certificate): bytes
    requires c.tbs.extensions.Some? && IsTlv(c.tbs.extensions.value)
  {
    Value(c.tbs.extensions.value) + (c.tbs.rest + (c.sigAlg + c.signature))
  }

  /** The wrapper that replaces the old one: the contents of the TLV read there, wherever it ends, then the blobs. */
  function NewWrapper(c: Certificate, blobs: seq<bytes>): Result<Option<bytes>, DerError>
    requires c.tbs.extensions.Some? ==> IsTlv(c.tbs.extensions.value)
  {
    if blobs == [] then Success(None)
    else if c.tbs.extensions.None? then Failure(NoExtensionsBlock)
    else
      var list :- TlvAt(BehindWrapper(c), 0);
      if list.tag != SEQUENCE then Failure(NotSequence)
      else
        var copied := BehindWrapper(c)[list.valueStart..list.valueEnd];
        Success(Some(DerString(EXTENSIONS_TAG, DerString(SEQUENCE, copied + Join(blobs)))))
  }

  lemma WrapperContext(der: bytes, c: Certificate)
    requires ReadCertificate(der) == Some(c) && c.tbs.extensions.Some?
    ensures Walk(der).Success? && Walk(der).value.extensions.Some? && IsTlv(c.tbs.extensions.value)
    ensures var w := Walk(der).value.extensions.value;
            w.valueStart <= w.valueEnd <= |der| && der[w.valueStart..] == BehindWrapper(c)
  {
    hide TlvAt, IsTlv, Value, Holds, ReadCertificate, TbsValue, Walk, Join, Front;
    WalkFindsTheFields(der, c);
    var l, t, w := Walk(der).value, c.tbs, c.tbs.extensions.value;
    var before := Front(t) + (t.issuer + (t.validity + (t.subject + (t.spki + Join(t.unique)))));
    WrapperInPlace(t, before);
    HoldsParts(der, l.tbsStart, before, w + t.rest);
    HeldToTheEnd(der, l.tbsEnd, c.sigAlg + c.signature);
    HoldsParts(der, l.tbsEnd - |t.rest|, t.rest, c.sigAlg + c.signature);
    HoldsParts(der, l.tbsEnd - |t.rest| - |w|, w, t.rest);
    ReadHeld(der, l.tbsEnd - |t.rest| - |w|, w);
    HoldsParts(der, l.tbsEnd - |t.rest| - |Value(w)|, Value(w), t.rest + (c.sigAlg + c.signature));
    HeldToTheEnd(der, l.tbsEnd - |t.rest| - |Value(w)|, BehindWrapper(c));
  }

  /** The edit of the wrapper that the walk's offsets lead to. */
  lemma CollectsWrapperEdit(der: bytes, c: Certificate, blobs: seq<bytes>)
    requires ReadCertificate(der) == Some(c)
    ensures Walk(der).Success? && ValidTbs(c.tbs)
    ensures var l := Walk(der).value;
            ExtensionsEdit(der, l.extensions, blobs)
            == match NewWrapper(c, blobs)
               case Failure(e) => Failure(e)
               case Success(wrapper) => Success(WrapperEdit(c.tbs, l.subjectEnd, wrapper))
  {
    hide TlvAt, IsTlv, Value, Holds, ReadCertificate, TbsValue, Walk, Join, Front, BehindWrapper;
    WalkFindsTheFields(der, c);
    if blobs != [] && c.tbs.extensions.Some? {
      WrapperContext(der, c);
      var w := Walk(der).value.extensions.value;
      ReadingASuffix(der, w.valueStart);
      if TlvAt(BehindWrapper(c), 0).Success? { SuffixSlice(der, w.valueStart); }
    }
  }

  /** The TLV at `pos` has the contents it has in the suffix from `pos`. */
  lemma SuffixSlice(der: bytes, pos: nat)
    requires pos <= |der| && TlvAt(der[pos..], 0).Success?
    ensures var t := TlvAt(der[pos..], 0).value;
            t.valueStart <= t.valueEnd <= |der| - pos
            && Slice(der, pos + t.valueStart, pos + t.valueEnd) == der[pos..][t.valueStart..t.valueEnd]
  {
  }

  /** The TLV read as the extension list is a SEQUENCE that ends inside the wrapper. */
  predicate ListFits(c: Certificate)
    requires c.tbs.extensions.Some? && IsTlv(c.tbs.extensions.value)
  {
    var list := TlvAt(BehindWrapper(c), 0);
    list.Success? && list.value.tag == SEQUENCE && list.value.valueEnd <= |Value(c.tbs.extensions.value)|
  }

  /** That is so exactly when the wrapper, read for itself, holds a SEQUENCE; and then its contents are copied. */
  lemma FittingList(c: Certificate)
    requires c.tbs.extensions.Some? && IsTlv(c.tbs.extensions.value)
    ensures ListFits(c) <==> ExtensionOctets(c.tbs.extensions.value).Some?
    ensures ListFits(c) ==>
              var list := TlvAt(BehindWrapper(c), 0).value;
              list.valueStart <= list.valueEnd <= |BehindWrapper(c)|
              && BehindWrapper(c)[list.valueStart..list.valueEnd] == ExtensionOctets(c.tbs.extensions.value).value
  {
    var v, all := Value(c.tbs.extensions.value), BehindWrapper(c);
    if ListFits(c) {
      ReadingIsLocal(all, 0, v, 0);
      SplitParts(v);
      var list := TlvAt(all, 0).value;
      ReadingIsLocal(v, 0, v[..list.valueEnd], 0);
    } else if ExtensionOctets(c.tbs.extensions.value).Some? {
      ReadingIsLocal(v, 0, all, 0);
    }
  }

  /** It ends where the wrapper does exactly when the wrapper holds one SEQUENCE and nothing behind it. */
  lemma FillingList(c: Certificate)
    requires c.tbs.extensions.Some? && IsTlv(c.tbs.extensions.value)
    ensures var w := c.tbs.extensions.value;
            && (WrapsOneSequence(w) <==> ExtensionOctets(w).Some? && BehindList(w) == [])
            && (WrapsOneSequence(w) <==>
                ListFits(c) && TlvAt(BehindWrapper(c), 0).value.valueEnd == |Value(w)|)
  {
    var w := c.tbs.extensions.value;
    var v, all := Value(w), BehindWrapper(c);
    OneSequence(w);
    if TlvAt(v, 0).Success? { ReadingIsLocal(v, 0, all, 0); }
    FittingList(c);
    if ListFits(c) { ReadingIsLocal(all, 0, v, 0); }
  }

  lemma OneSequence(w: bytes)
    requires IsTlv(w)
    ensures WrapsOneSequence(w) <==> ExtensionOctets(w).Some? && BehindList(w) == []
  {
    var v := Value(w);
    if Split(v).Some? {
      SplitParts(v);
      var (list, more) := Split(v).value;
      if more == [] { assert list == v; }
    }
    if IsTlv(v) { assert v[..|v|] == v && v[|v|..] == []; }
  }

  lemma HeldSlice(der: bytes, pos: nat, x: bytes)
    requires Holds(der, pos, x)
    ensures Slice(der, pos, pos + |x|) == x
  {
  }

  lemma CollectedInOrder(l: Layout, t: Tbs, subject: Option<bytes>, issuer: Option<bytes>, wrapper: Option<bytes>)
    requires l.issuerStart <= l.subjectStart <= l.subjectEnd && (wrapper.Some? ==> t.extensions.Some?)
    ensures var issuerEdit := NameEdit(l.issuerStart, l.issuerEnd, issuer);
            var subjectEdit := NameEdit(l.subjectStart, l.subjectEnd, subject);
            var wrapperEdit := WrapperEdit(t, l.subjectEnd, wrapper);
            SortByStart(issuerEdit + subjectEdit + wrapperEdit) == issuerEdit + (subjectEdit + wrapperEdit)
  {
    var issuerEdit := NameEdit(l.issuerStart, l.issuerEnd, issuer);
    var subjectEdit := NameEdit(l.subjectStart, l.subjectEnd, subject);
    var wrapperEdit := WrapperEdit(t, l.subjectEnd, wrapper);
    assert issuerEdit + subjectEdit + wrapperEdit == issuerEdit + (subjectEdit + wrapperEdit);
    SortKeepsOrder(issuerEdit + subjectEdit + wrapperEdit);
  }

  lemma WrapperInPlace(t: Tbs, before: bytes)
    requires t.extensions.Some?
    requires before == Front(t) + (t.issuer + (t.validity + (t.subject + (t.spki + Join(t.unique)))))
    ensures TbsValue(t) == before + (t.extensions.value + t.rest)
  {
    TbsValueParts(t);
  }

  /** The rewriting, once the edit of the wrapper is known. */
  lemma RewriteWith(der: bytes, c: Certificate, subject: Option<bytes>, issuer: Option<bytes>,
                    blobs: seq<bytes>, wrapper: Option<bytes>, sign: Signer)
    requires ReadCertificate(der) == Some(c)
    requires (subject.Some? ==> IsName(subject.value)) && (issuer.Some? ==> IsName(issuer.value))
    requires wrapper.Some? ==> c.tbs.extensions.Some?
    requires Walk(der).Success?
    requires var l := Walk(der).value;
             ExtensionsEdit(der, l.extensions, blobs) == Success(WrapperEdit(c.tbs, l.subjectEnd, wrapper))
    ensures Rewrite(der, subject, issuer, blobs, sign)
            == Success(Resigned(TbsValue(EditedNames(c.tbs, subject, issuer, wrapper)), c.sigAlg, sign))
  {
    hide TlvAt, IsTlv, Holds, ReadCertificate, ReadTbs, TbsValue, ValidTbs, Walk, Join, ExtensionsEdit, ApplyEdits,
      Resigned, WrapperEdit, ExtensionOctets, SortByStart, NameEdit, Front;
    WalkFindsTheFields(der, c);
    var l := Walk(der).value;
    ValidatesNames(subject);
    ValidatesNames(issuer);
    EditedValue(der, l.tbsStart, c.tbs, subject, issuer, wrapper);
    CollectedInOrder(l, c.tbs, subject, issuer, wrapper);
    HeldSlice(der, l.tbsEnd, c.sigAlg);
  }

  /** What the rewriting of a certificate with the fields of `c` means, without any offset. */
  function Outcome(c: Certificate, subject: Option<bytes>, issuer: Option<bytes>, blobs: seq<bytes>, sign: Signer)
    : Result<bytes, DerError>
    requires c.tbs.extensions.Some? ==> IsTlv(c.tbs.extensions.value)
  {
    var _ :- ValidateSingle(subject);
    var _ :- ValidateSingle(issuer);
    var wrapper :- NewWrapper(c, blobs);
    Success(Resigned(TbsValue(EditedNames(c.tbs, subject, issuer, wrapper)), c.sigAlg, sign))
  }

  /**
   On every certificate the strict reader accepts, and for all Names and blobs whatever, the rewriting by
   offsets computes the one on fields, with the same errors.
  */
  lemma RewriteRefines(der: bytes, c: Certificate, subject: Option<bytes>, issuer: Option<bytes>,
                       blobs: seq<bytes>, sign: Signer)
    requires ReadCertificate(der) == Some(c)
    ensures c.tbs.extensions.Some? ==> IsTlv(c.tbs.extensions.value)
    ensures Rewrite(der, subject, issuer, blobs, sign) == Outcome(c, subject, issuer, blobs, sign)
  {
    hide TlvAt, IsTlv, Holds, ReadCertificate, ReadTbs, TbsValue, Walk, Join, ExtensionsEdit, NewWrapper, ValidateSingle,
      Resigned, WrapperEdit, ExtensionOctets, Front, IsName, SortByStart, ApplyEdits;
    CollectsWrapperEdit(der, c, blobs);
    ValidatesNames(subject);
    ValidatesNames(issuer);
    if ValidateSingle(subject).Success? && ValidateSingle(issuer).Success? && NewWrapper(c, blobs).Success? {
      NewWrapperNeedsOld(c, blobs);
      RewriteWith(der, c, subject, issuer, blobs, NewWrapper(c, blobs).value, sign);
    }
  }

  lemma NewWrapperNeedsOld(c: Certificate, blobs: seq<bytes>)
    requires c.tbs.extensions.Some? ==> IsTlv(c.tbs.extensions.value)
    ensures NewWrapper(c, blobs).Success? && NewWrapper(c, blobs).value.Some? ==> c.tbs.extensions.Some?
  {
  }

  /**
   On every certificate the strict reader accepts, the rewriting succeeds and produces exactly the
   certificate with the edited fields, the old signature algorithm, and a signature over the new TBS TLV.
   */
  lemma RewriteComputes(der: bytes, c: Certificate, subject: Option<bytes>, issuer: Option<bytes>,
                        blobs: seq<bytes>, sign: Signer)
    requires ReadCertificate(der) == Some(c) && Applicable(c.tbs, subject, issuer, blobs)
    ensures Rewrite(der, subject, issuer, blobs, sign)
            == Success(Resigned(TbsValue(Edited(c.tbs, subject, issuer, blobs)), c.sigAlg, sign))
  {
    hide TlvAt, IsTlv, ReadCertificate, TbsValue, Walk, Join, Rewrite, Resigned, ExtensionOctets, ValidateSingle, IsName;
    RewriteRefines(der, c, subject, issuer, blobs, sign);
    ValidatesNames(subject);
    ValidatesNames(issuer);
    if blobs != [] { FittingList(c); }
  }

  /** The two errors of the validation: no SEQUENCE tag in front, or octets behind the TLV; others are the reader's. */
  lemma ValidationErrors(raw: bytes)
    ensures ValidateSingle(Some(raw)) == Failure(NotSequenceTlv) <==> raw == [] || raw[0] != 0x30
    ensures ValidateSingle(Some(raw)) == Failure(TrailingBytes)
            <==> raw != [] && raw[0] == 0x30 && Split(raw).Some? && Split(raw).value.1 != []
    ensures raw != [] && raw[0] == 0x30 && TlvAt(raw, 0).Failure? ==> ValidateSingle(Some(raw)) == Failure(TlvAt(raw, 0).error)
  {
  }
}
