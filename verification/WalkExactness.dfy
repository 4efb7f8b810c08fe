/** For which octet strings the walk over a certificate and the strict reader see the same certificate. */
module WalkExactness {
  import opened Bytes
  import opened Der
  import opened Certificates
  import opened Splice
  import opened SpliceProofs

  /** Where the scan over the optional fields stops: behind the `[3]` wrapper, or at or past the end. */
  function ScanEnd(der: bytes, pos: nat, end: nat): (r: nat)
    requires FindExtensions(der, pos, end).Success?
    ensures pos <= r
    decreases if pos <= |der| then |der| - pos else 0
  {
    if pos >= end then pos
    else
      var t := TlvAt(der, pos).value;
      if t.tag == EXTENSIONS_TAG then t.valueEnd else ScanEnd(der, t.valueEnd, end)
  }

  /** The end of the public key, from which the scan starts. */
  function KeyEnd(der: bytes, l: Layout): nat
    requires TlvAt(der, l.subjectEnd).Success?
  {
    TlvAt(der, l.subjectEnd).value.valueEnd
  }

  /** The fields the walk passes, in order; `serial` is where it starts again when there is no version. */
  datatype Fields = Fields(outer: Tlv, tbs: Tlv, sigAlg: Tlv, first: Tlv, serial: Tlv, algorithm: Tlv, issuer: Tlv,
                           validity: Tlv, subject: Tlv, spki: Tlv)

  predicate AreFields(der: bytes, f: Fields) {
    && TlvAt(der, 0) == Success(f.outer) && f.outer.tag == SEQUENCE
    && TlvAt(der, f.outer.valueStart) == Success(f.tbs) && f.tbs.tag == SEQUENCE
    && TlvAt(der, f.tbs.valueEnd) == Success(f.sigAlg)
    && TlvAt(der, f.tbs.valueStart) == Success(f.first)
    && (if f.first.tag == VERSION_TAG then TlvAt(der, f.first.valueEnd) == Success(f.serial) else f.serial == f.first)
    && TlvAt(der, f.serial.valueEnd) == Success(f.algorithm)
    && TlvAt(der, f.algorithm.valueEnd) == Success(f.issuer)
    && TlvAt(der, f.issuer.valueEnd) == Success(f.validity)
    && TlvAt(der, f.validity.valueEnd) == Success(f.subject)
    && TlvAt(der, f.subject.valueEnd) == Success(f.spki)
  }

  function FieldsOf(der: bytes): Result<Fields, DerError> {
    var outer :- TlvAt(der, 0);
    var tbs :- TlvAt(der, outer.valueStart);
    var sigAlg :- TlvAt(der, tbs.valueEnd);
    var first :- TlvAt(der, tbs.valueStart);
    var serial :- if first.tag == VERSION_TAG then TlvAt(der, first.valueEnd) else Success(first);
    var algorithm :- TlvAt(der, serial.valueEnd);
    var issuer :- TlvAt(der, algorithm.valueEnd);
    var validity :- TlvAt(der, issuer.valueEnd);
    var subject :- TlvAt(der, validity.valueEnd);
    var spki :- TlvAt(der, subject.valueEnd);
    Success(Fields(outer, tbs, sigAlg, first, serial, algorithm, issuer, validity, subject, spki))
  }

  lemma WalkPasses(der: bytes) returns (f: Fields)
    requires Walk(der).Success?
    ensures AreFields(der, f) && FindExtensions(der, f.spki.valueEnd, f.tbs.valueEnd).Success?
    ensures var l := Walk(der).value;
            && l.tbsStart == f.tbs.valueStart && l.tbsEnd == f.tbs.valueEnd && l.sigAlgEnd == f.sigAlg.valueEnd
            && l.subjectEnd == f.subject.valueEnd
  {
    hide TlvAt, FindExtensions;
    f := FieldsOf(der).value;
  }

  lemma FieldBounds(der: bytes, f: Fields)
    requires AreFields(der, f)
    ensures 2 <= f.outer.valueStart <= f.outer.valueEnd <= |der|
    ensures f.outer.valueStart < f.tbs.valueStart <= f.tbs.valueEnd < f.sigAlg.valueEnd <= |der|
    ensures f.tbs.valueStart < f.first.valueEnd <= f.serial.valueEnd < f.algorithm.valueEnd < f.issuer.valueEnd
    ensures f.issuer.valueEnd < f.validity.valueEnd < f.subject.valueEnd < f.spki.valueEnd <= |der|
  {
    hide TlvAt;
    TlvBounds(der, 0);
    TlvBounds(der, f.outer.valueStart);
    TlvBounds(der, f.tbs.valueEnd);
    TlvBounds(der, f.tbs.valueStart);
    TlvBounds(der, f.first.valueEnd);
    TlvBounds(der, f.serial.valueEnd);
    TlvBounds(der, f.algorithm.valueEnd);
    TlvBounds(der, f.issuer.valueEnd);
    TlvBounds(der, f.validity.valueEnd);
    TlvBounds(der, f.subject.valueEnd);
  }

  lemma TlvBounds(der: bytes, pos: nat)
    ensures TlvAt(der, pos).Success? ==>
              var t := TlvAt(der, pos).value; t.start == pos && pos + 2 <= t.valueStart <= t.valueEnd <= |der|
  {
  }

  /**
   What the walk does not check: that the outer SEQUENCE ends with the octets, that a BIT STRING stands behind
   the algorithm and ends there too, and that the last field it looks at ends inside the TBS.
  */
  predicate EndsFit(der: bytes)
    requires Walk(der).Success?
  {
    hide TlvAt, FindExtensions, ScanEnd;
    WalkReaches(der);
    var l, signature := Walk(der).value, TlvAt(der, Walk(der).value.sigAlgEnd);
    && TlvAt(der, 0).value.valueEnd == |der|
    && signature.Success? && signature.value.tag == BIT_STRING && signature.value.valueEnd == |der|
    && ScanEnd(der, KeyEnd(der, l), l.tbsEnd) <= l.tbsEnd
  }

  lemma WalkReaches(der: bytes)
    requires Walk(der).Success?
    ensures var l := Walk(der).value;
            && TlvAt(der, 0).Success? && TlvAt(der, l.subjectEnd).Success?
            && FindExtensions(der, KeyEnd(der, l), l.tbsEnd).Success?
  {
    hide TlvAt, FindExtensions, Walk;
    var f := WalkPasses(der);
  }

  // ---- one field in a slice ----

  /** In a slice a field reads exactly when it reads in place and ends inside the slice. */
  lemma SplitSlice(der: bytes, pos: nat, end: nat)
    requires pos <= end <= |der|
    ensures Split(der[pos..end]).Some? <==> EndsWithin(der, pos, end)
    ensures EndsWithin(der, pos, end) ==>
              var t := TlvAt(der, pos).value;
              && pos < t.valueEnd && Split(der[pos..end]) == Some((der[pos..t.valueEnd], der[t.valueEnd..end]))
              && IsTlv(der[pos..t.valueEnd]) && der[pos..t.valueEnd][0] == t.tag
              && Value(der[pos..t.valueEnd]) == der[t.valueStart..t.valueEnd]
  {
    var s := der[pos..end];
    SliceReads(der, pos, end);
    hide TlvAt;
    TlvBounds(der, pos);
    if EndsWithin(der, pos, end) {
      var t := TlvAt(der, pos).value;
      assert s[..t.valueEnd - pos] == der[pos..t.valueEnd] && s[t.valueEnd - pos..] == der[t.valueEnd..end];
      SliceReads(der, pos, t.valueEnd);
      assert der[pos..t.valueEnd][t.valueStart - pos..] == der[t.valueStart..t.valueEnd];
      assert s[0] == der[pos];
      TagOf(der, pos);
    }
  }

  lemma TagOf(der: bytes, pos: nat)
    requires TlvAt(der, pos).Success?
    ensures pos < |der| && TlvAt(der, pos).value.tag == der[pos]
  {
  }

  /** Reading in a slice and in place. */
  lemma SliceReads(der: bytes, pos: nat, end: nat)
    requires pos <= end <= |der|
    ensures TlvAt(der[pos..end], 0).Success? <==> EndsWithin(der, pos, end)
    ensures EndsWithin(der, pos, end) ==>
              var t := TlvAt(der, pos).value;
              pos < t.valueEnd && TlvAt(der[pos..end], 0) == Success(Tlv(t.tag, 0, t.valueStart - pos, t.valueEnd - pos))
  {
    var s := der[pos..end];
    if TlvAt(s, 0).Success? {
      SliceOfSlice(der, pos, end, 0, TlvAt(s, 0).value.valueEnd);
      ReadingIsLocal(s, 0, der, pos);
    } else if EndsWithin(der, pos, end) {
      SliceOfSlice(der, pos, end, 0, TlvAt(der, pos).value.valueEnd - pos);
      ReadingIsLocal(der, pos, s, 0);
    }
  }

  predicate EndsWithin(der: bytes, pos: nat, end: nat) {
    TlvAt(der, pos).Success? && TlvAt(der, pos).value.valueEnd <= end
  }

  lemma {:induction false} TrailerSlice(der: bytes, pos: nat, end: nat)
    requires pos <= end <= |der|
    ensures ReadTrailer(der[pos..end]).Some? <==> FindExtensions(der, pos, end).Success? && ScanEnd(der, pos, end) <= end
    decreases end - pos
  {
    hide TlvAt, Split, IsTlv;
    if pos < end {
      SplitSlice(der, pos, end);
      assert der[pos..end] != [];
      if EndsWithin(der, pos, end) { TrailerSlice(der, TlvAt(der, pos).value.valueEnd, end); }
      else if TlvAt(der, pos).Success? && FindExtensions(der, pos, end).Success? {
        assert ScanEnd(der, pos, end) > end;
      }
    }
  }

  // ---- the TBS and the certificate ----

  /** The fields in front of the scan read in the slice of the TBS exactly when the last of them ends inside it. */
  lemma TbsSlice(der: bytes, f: Fields)
    requires AreFields(der, f) && f.spki.valueEnd <= f.tbs.valueEnd
    ensures f.tbs.valueStart <= f.tbs.valueEnd <= |der|
    ensures ReadTbs(der[f.tbs.valueStart..f.tbs.valueEnd]).Some?
            <==> ReadTrailer(der[f.spki.valueEnd..f.tbs.valueEnd]).Some?
  {
    hide TlvAt, Split, IsTlv, Value, ReadTrailer;
    FieldBounds(der, f);
    var end := f.tbs.valueEnd;
    SplitSlice(der, f.tbs.valueStart, end);
    SplitSlice(der, f.first.valueEnd, end);
    SplitSlice(der, f.serial.valueEnd, end);
    SplitSlice(der, f.algorithm.valueEnd, end);
    SplitSlice(der, f.issuer.valueEnd, end);
    SplitSlice(der, f.validity.valueEnd, end);
    SplitSlice(der, f.subject.valueEnd, end);
  }

  /** A walk whose ends fit is over a certificate the strict reader accepts. */
  lemma FittingWalkReads(der: bytes)
    requires Walk(der).Success? && EndsFit(der)
    ensures ReadCertificate(der).Some?
  {
    hide TlvAt, Split, IsTlv, Value, FindExtensions, Walk, ScanEnd, ReadTbs;
    WalkReaches(der);
    var f := WalkPasses(der);
    FieldBounds(der, f);
    TbsSlice(der, f);
    TrailerSlice(der, f.spki.valueEnd, f.tbs.valueEnd);
    SplitSlice(der, 0, |der|);
    SplitSlice(der, f.outer.valueStart, |der|);
    SplitSlice(der, f.tbs.valueEnd, |der|);
    SplitSlice(der, f.sigAlg.valueEnd, |der|);
    assert der[0..|der|] == der;
  }

  /** On a certificate the strict reader accepts, the walk succeeds and its ends fit. */
  lemma ReadingWalksFittingly(der: bytes, c: Certificate)
    requires ReadCertificate(der) == Some(c)
    ensures Walk(der).Success? && EndsFit(der)
  {
    hide TlvAt, Split, IsTlv, Value, FindExtensions, Walk, ScanEnd, ReadTbs, ReadCertificate, TbsValue, Join, ReadTrailer;
    WalkFindsTheFields(der, c);
    WalkReaches(der);
    OuterEnds(der, c);
    SignatureEnds(der, c);
    ScanFits(der, c);
  }

  lemma OuterEnds(der: bytes, c: Certificate)
    requires ReadCertificate(der) == Some(c)
    ensures TlvAt(der, 0).Success? && TlvAt(der, 0).value.valueEnd == |der|
  {
    hide TlvAt, ReadTbs;
  }

  lemma SignatureEnds(der: bytes, c: Certificate)
    requires ReadCertificate(der) == Some(c) && Walk(der).Success?
    ensures var signature := TlvAt(der, Walk(der).value.sigAlgEnd);
            signature.Success? && signature.value.tag == BIT_STRING && signature.value.valueEnd == |der|
  {
    hide TlvAt, IsTlv, Value, Walk, ReadTbs, TbsValue, ReadCertificate, Join, Holds;
    WalkFindsTheFields(der, c);
    CertificateReadsExactly(der, c);
    var l := Walk(der).value;
    HeldToTheEnd(der, l.tbsEnd, c.sigAlg + c.signature);
    HoldsParts(der, l.tbsEnd, c.sigAlg, c.signature);
    ReadHeld(der, l.tbsEnd + |c.sigAlg|, c.signature);
  }

  lemma ScanFits(der: bytes, c: Certificate)
    requires ReadCertificate(der) == Some(c) && Walk(der).Success?
    requires TlvAt(der, Walk(der).value.subjectEnd).Success?
    requires FindExtensions(der, KeyEnd(der, Walk(der).value), Walk(der).value.tbsEnd).Success?
    ensures ScanEnd(der, KeyEnd(der, Walk(der).value), Walk(der).value.tbsEnd) <= Walk(der).value.tbsEnd
  {
    hide TlvAt, IsTlv, Value, Walk, ReadTbs, TbsValue, ReadCertificate, Join, Holds, FindExtensions, ScanEnd, Front,
      ReadTrailer, TrailerOctets;
    WalkFindsTheFields(der, c);
    var l, t := Walk(der).value, c.tbs;
    var trailer := TrailerOctets(t.unique, t.extensions, t.rest);
    TbsValueParts(t);
    WalkFront(der, l.tbsStart, t, t.issuer + (t.validity + (t.subject + BackOf(t))));
    WalkBack(der, l.tbsStart + |Front(t)|, t, trailer);
    var pos := KeyEnd(der, l);
    assert pos + |trailer| == l.tbsEnd;
    HeldIsSlice(der, pos, trailer);
    TrailerReadsBack(t.unique, t.extensions, t.rest);
    TrailerSlice(der, pos, l.tbsEnd);
  }

  lemma HeldIsSlice(der: bytes, pos: nat, x: bytes)
    requires Holds(der, pos, x)
    ensures pos + |x| <= |der| && der[pos..pos + |x|] == x
  {
  }

  /**
   The walk and the strict reader, over all octet strings: the reader accepts if and only if the walk succeeds
   and the ends it does not check fit. Then the offsets found are those of the fields read
   (`WalkFindsTheFields`).
  */
  lemma WalkIsExact(der: bytes)
    ensures ReadCertificate(der).Some? <==> Walk(der).Success? && EndsFit(der)
    ensures ReadCertificate(der).Some? ==>
              var l, c := Walk(der).value, ReadCertificate(der).value;
              && ValidTbs(c.tbs) && l == LayoutOf(c.tbs, l.tbsStart, l.tbsEnd + |c.sigAlg|)
              && Holds(der, l.tbsStart, TbsValue(c.tbs)) && Holds(der, l.tbsEnd, c.sigAlg)
  {
    hide ReadCertificate, Walk, EndsFit, TlvAt;
    if ReadCertificate(der).Some? {
      ReadingWalksFittingly(der, ReadCertificate(der).value);
      WalkFindsTheFields(der, ReadCertificate(der).value);
    } else if Walk(der).Success? && EndsFit(der) {
      FittingWalkReads(der);
    }
  }

  /** The tags the walk insists on, and its error when they are others. */
  lemma WalkRefusesTags(der: bytes)
    requires TlvAt(der, 0).Success?
    ensures der[0] != 0x30 ==> Walk(der) == Failure(NotSequence)
    ensures var body := TlvAt(der, 0).value.valueStart;
            der[0] == 0x30 && TlvAt(der, body).Success? && der[body] != 0x30 ==> Walk(der) == Failure(NotSequence)
  {
    hide FindExtensions;
    TagOf(der, 0);
    var body := TlvAt(der, 0).value.valueStart;
    if TlvAt(der, body).Success? { TagOf(der, body); }
    hide TlvAt;
  }

  // ---- the rewriting of any octet string the walk gets through ----

  /** The walk succeeds exactly when the fields it passes can be read and the scan ends. */
  lemma WalkSucceeds(der: bytes)
    ensures Walk(der).Success? <==>
            exists f :: AreFields(der, f) && FindExtensions(der, f.spki.valueEnd, f.tbs.valueEnd).Success?
  {
    hide TlvAt, FindExtensions;
    if Walk(der).Success? { var f := WalkPasses(der); }
  }

  lemma {:induction false} FoundBehind(der: bytes, pos: nat, end: nat)
    requires FindExtensions(der, pos, end).Success? && FindExtensions(der, pos, end).value.Some?
    ensures var w := FindExtensions(der, pos, end).value.value;
            pos <= w.start < w.valueStart <= w.valueEnd <= |der| && w.tag == 0xA3 && w.start < end
            && TlvAt(der, w.start) == Success(w)
    decreases if pos <= |der| then |der| - pos else 0
  {
    hide TlvAt;
    TlvBounds(der, pos);
    var t := TlvAt(der, pos).value;
    if t.tag != EXTENSIONS_TAG { FoundBehind(der, t.valueEnd, end); }
  }

  lemma LayoutInOrder(der: bytes)
    requires Walk(der).Success?
    ensures var l := Walk(der).value;
            && l.tbsStart <= l.issuerStart <= l.issuerEnd <= l.subjectStart <= l.subjectEnd <= |der|
            && (l.extensions.Some? ==> l.subjectEnd <= l.extensions.value.start <= l.extensions.value.valueEnd <= |der|)
  {
    hide TlvAt, FindExtensions;
    var f := FieldsOf(der).value;
    var found := WalkPasses(der);
    FieldBounds(der, f);
    if Walk(der).value.extensions.Some? { FoundBehind(der, f.spki.valueEnd, f.tbs.valueEnd); }
  }

  /** The new wrapper for a given layout, if there is one to put in. */
  function WrapperFor(der: bytes, l: Layout, blobs: seq<bytes>): Result<Option<bytes>, DerError> {
    if blobs == [] then Success(None)
    else if l.extensions.None? then Failure(NoExtensionsBlock)
    else
      var list :- TlvAt(der, l.extensions.value.valueStart);
      if list.tag != 0x30 then Failure(NotSequence)
      else Success(Some(DerString(0xA3, DerString(0x30, Slice(der, list.valueStart, list.valueEnd) + Join(blobs)))))
  }

  /**
   The rewriting of any octet string the walk gets through, well-formed or not: the octets of the TBS up to the
   issuer, the issuer, those up to the subject, the subject, those up to the wrapper, the wrapper, and those up to
   the end of the TBS; where a field is not given the octets go on.
  */
  lemma RewritesInPlace(der: bytes, subject: Option<bytes>, issuer: Option<bytes>, blobs: seq<bytes>, sign: Signer)
    requires Walk(der).Success? && ValidateSingle(subject).Success? && ValidateSingle(issuer).Success?
    ensures var l, wrapper := Walk(der).value, WrapperFor(der, Walk(der).value, blobs);
            && (wrapper.Failure? ==> Rewrite(der, subject, issuer, blobs, sign) == Failure(wrapper.error))
            && (wrapper.Success? ==>
                  && (wrapper.value.Some? ==> l.extensions.Some?)
                  && Rewrite(der, subject, issuer, blobs, sign)
                     == Success(Resigned(InPlace(der, l, subject, issuer, wrapper.value),
                                         Slice(der, l.tbsEnd, l.sigAlgEnd), sign)))
  {
    hide TlvAt, Walk, ValidateSingle, Slice, SortByStart, ApplyEdits, Resigned;
    LayoutInOrder(der);
    var l, wrapper := Walk(der).value, WrapperFor(der, Walk(der).value, blobs);
    if wrapper.Success? {
      var w := wrapper.value;
      var edits := NameEdit(l.issuerStart, l.issuerEnd, issuer) + NameEdit(l.subjectStart, l.subjectEnd, subject)
                   + BackEdit(l, w);
      SortKeepsOrder(edits);
      InPlaceApplies(der, l, subject, issuer, w);
    }
  }

  function BackEdit(l: Layout, wrapper: Option<bytes>): seq<Edit> {
    if l.extensions.None? then [] else NameEdit(l.extensions.value.start, l.extensions.value.valueEnd, wrapper)
  }

  function InPlace(der: bytes, l: Layout, subject: Option<bytes>, issuer: Option<bytes>, wrapper: Option<bytes>): bytes
    requires wrapper.Some? ==> l.extensions.Some?
  {
    FromIssuer(der, l.tbsStart, l, subject, issuer, wrapper)
  }

  function FromIssuer(der: bytes, a: nat, l: Layout, subject: Option<bytes>, issuer: Option<bytes>, wrapper: Option<bytes>)
    : bytes
    requires wrapper.Some? ==> l.extensions.Some?
  {
    if issuer.Some? then Slice(der, a, l.issuerStart) + (issuer.value + FromSubject(der, l.issuerEnd, l, subject, wrapper))
    else FromSubject(der, a, l, subject, wrapper)
  }

  function FromSubject(der: bytes, a: nat, l: Layout, subject: Option<bytes>, wrapper: Option<bytes>): bytes
    requires wrapper.Some? ==> l.extensions.Some?
  {
    if subject.Some? then Slice(der, a, l.subjectStart) + (subject.value + FromWrapper(der, l.subjectEnd, l, wrapper))
    else FromWrapper(der, a, l, wrapper)
  }

  function FromWrapper(der: bytes, a: nat, l: Layout, wrapper: Option<bytes>): bytes
    requires wrapper.Some? ==> l.extensions.Some?
  {
    if wrapper.Some? then
      Slice(der, a, l.extensions.value.start) + (wrapper.value + Slice(der, l.extensions.value.valueEnd, l.tbsEnd))
    else Slice(der, a, l.tbsEnd)
  }

  lemma InPlaceApplies(der: bytes, l: Layout, subject: Option<bytes>, issuer: Option<bytes>, wrapper: Option<bytes>)
    requires wrapper.Some? ==> l.extensions.Some?
    ensures ApplyEdits(der, l.tbsStart, l.tbsEnd,
                       NameEdit(l.issuerStart, l.issuerEnd, issuer) + NameEdit(l.subjectStart, l.subjectEnd, subject)
                       + BackEdit(l, wrapper))
            == InPlace(der, l, subject, issuer, wrapper)
  {
    hide Slice;
    var back := BackEdit(l, wrapper);
    var names := NameEdit(l.subjectStart, l.subjectEnd, subject) + back;
    assert NameEdit(l.issuerStart, l.issuerEnd, issuer) + NameEdit(l.subjectStart, l.subjectEnd, subject) + back
        == NameEdit(l.issuerStart, l.issuerEnd, issuer) + names;
    forall a: nat ensures ApplyEdits(der, a, l.tbsEnd, back) == FromWrapper(der, a, l, wrapper) {
      if wrapper.Some? { assert back[1..] == []; }
    }
    forall a: nat ensures ApplyEdits(der, a, l.tbsEnd, names) == FromSubject(der, a, l, subject, wrapper) {
      if subject.Some? { assert names[1..] == back; } else { assert names == back; }
    }
    var edits := NameEdit(l.issuerStart, l.issuerEnd, issuer) + names;
    if issuer.Some? { assert edits[1..] == names; } else { assert edits == names; }
  }
}
