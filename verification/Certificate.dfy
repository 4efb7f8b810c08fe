/**
 A certificate as its fields, with a strict reader and a printer (section 4.1 of RFC 5280).

 The reader uses nothing but `TlvAt`, and reads every nested field inside the slice of its parent, so it
 accepts only certificates whose nested ends fit their parents. It is the reference the in-place
 rewriting of module Splice is held against.
 */
module Certificates {
  import opened Bytes
  import opened Der

  const SEQUENCE: byte := 0x30
  const BIT_STRING: byte := 0x03
  const VERSION_TAG: byte := 0xA0
  const EXTENSIONS_TAG: byte := 0xA3

  /**
   The fields of a TBSCertificate, each as the octets of its TLV. `unique` holds the optional fields in
   front of the `[3]` extensions, `rest` whatever stands behind them.
   */
  datatype Tbs = Tbs(
    version: Option<bytes>, serial: bytes, algorithm: bytes, issuer: bytes, validity: bytes, subject: bytes,
    spki: bytes, unique: seq<bytes>, extensions: Option<bytes>, rest: bytes)

  datatype Certificate = Certificate(tbsTlv: bytes, tbs: Tbs, sigAlg: bytes, signature: bytes)

  function Optional(x: Option<bytes>): bytes {
    if x.Some? then x.value else []
  }

  // ---- printing ----

  function TrailerOctets(unique: seq<bytes>, extensions: Option<bytes>, rest: bytes): bytes {
    Join(unique) + (Optional(extensions) + rest)
  }

  function TbsValue(t: Tbs): bytes {
    Optional(t.version) + (t.serial + (t.algorithm + (t.issuer + (t.validity + (t.subject + (t.spki +
      TrailerOctets(t.unique, t.extensions, t.rest)))))))
  }

  function Print(tbsTlv: bytes, sigAlg: bytes, signature: bytes): bytes {
    DerString(SEQUENCE, tbsTlv + (sigAlg + signature))
  }

  // ---- strict reading ----

  function ReadTrailer(v: bytes): Option<(seq<bytes>, Option<bytes>, bytes)>
    decreases |v|
  {
    if v == [] then Some(([], None, []))
    else
      var (x, v') :- Split(v);
      if x[0] == EXTENSIONS_TAG then Some(([], Some(x), v'))
      else
        var (unique, extensions, rest) :- ReadTrailer(v');
        Some(([x] + unique, extensions, rest))
  }

  function ReadTbs(v: bytes): Option<Tbs> {
    var (first, v0) :- Split(v);
    var (version, (serial, v1)) :-
      if first[0] == VERSION_TAG then (var s :- Split(v0); Some((Some(first), s)))
      else Some((None, (first, v0)));
    var (algorithm, v2) :- Split(v1);
    var (issuer, v3) :- Split(v2);
    var (validity, v4) :- Split(v3);
    var (subject, v5) :- Split(v4);
    var (spki, v6) :- Split(v5);
    var (unique, extensions, rest) :- ReadTrailer(v6);
    Some(Tbs(version, serial, algorithm, issuer, validity, subject, spki, unique, extensions, rest))
  }

  function ReadCertificate(der: bytes): Option<Certificate> {
    if !(IsTlv(der) && der[0] == SEQUENCE) then None
    else
      var (tbsTlv, b1) :- Split(Value(der));
      var (sigAlg, b2) :- Split(b1);
      if !(IsTlv(tbsTlv) && tbsTlv[0] == SEQUENCE && IsTlv(b2) && b2[0] == BIT_STRING) then None
      else
        var tbs :- ReadTbs(Value(tbsTlv));
        Some(Certificate(tbsTlv, tbs, sigAlg, b2))
  }

  // ---- the two are inverse ----

  ghost predicate ValidTrailer(unique: seq<bytes>, extensions: Option<bytes>, rest: bytes) {
    && (forall x <- unique :: IsTlv(x) && x[0] != EXTENSIONS_TAG)
    && (extensions.Some? ==> IsTlv(extensions.value) && extensions.value[0] == EXTENSIONS_TAG)
    && (extensions.None? ==> rest == [])
  }

  ghost predicate ValidTbs(t: Tbs) {
    && (t.version.Some? ==> IsTlv(t.version.value) && t.version.value[0] == VERSION_TAG)
    && IsTlv(t.serial) && (t.version.None? ==> t.serial[0] != VERSION_TAG)
    && IsTlv(t.algorithm) && IsTlv(t.issuer) && IsTlv(t.validity) && IsTlv(t.subject) && IsTlv(t.spki)
    && ValidTrailer(t.unique, t.extensions, t.rest)
  }

  lemma TrailerCons(unique: seq<bytes>, extensions: Option<bytes>, rest: bytes)
    requires unique != []
    ensures TrailerOctets(unique, extensions, rest) == unique[0] + TrailerOctets(unique[1..], extensions, rest)
  {
  }

  lemma {:induction false} TrailerReadsBack(unique: seq<bytes>, extensions: Option<bytes>, rest: bytes)
    requires ValidTrailer(unique, extensions, rest)
    ensures ReadTrailer(TrailerOctets(unique, extensions, rest)) == Some((unique, extensions, rest))
    decreases |unique|
  {
    hide TlvAt, IsTlv, Split;
    if unique == [] {
      assert TrailerOctets(unique, extensions, rest) == Optional(extensions) + rest;
      if extensions.Some? { SplitTlv(extensions.value, rest); }
    } else {
      var x, tail := unique[0], TrailerOctets(unique[1..], extensions, rest);
      assert x in unique && forall y <- unique[1..] :: y in unique;
      TrailerCons(unique, extensions, rest);
      hide TrailerOctets;
      SplitTlv(x, tail);
      TrailerReadsBack(unique[1..], extensions, rest);
      assert [x] + unique[1..] == unique;
      assert (x + tail)[0] == x[0];
    }
  }

  lemma {:induction false} TrailerParts(v: bytes)
    requires ReadTrailer(v).Some?
    ensures var (unique, extensions, rest) := ReadTrailer(v).value;
            ValidTrailer(unique, extensions, rest) && TrailerOctets(unique, extensions, rest) == v
    decreases |v|
  {
    hide TlvAt, IsTlv, Split;
    if v != [] {
      SplitParts(v);
      var (x, v') := Split(v).value;
      if x[0] != EXTENSIONS_TAG {
        TrailerParts(v');
        var (unique, extensions, rest) := ReadTrailer(v).value;
        assert Join(unique) == x + Join(unique[1..]);
      }
    }
  }

  lemma TbsReadsBack(t: Tbs)
    requires ValidTbs(t)
    ensures ReadTbs(TbsValue(t)) == Some(t)
  {
    hide TlvAt, IsTlv, Split;
    var v6 := TrailerOctets(t.unique, t.extensions, t.rest);
    var v5 := t.spki + v6;
    var v4 := t.subject + v5;
    var v3 := t.validity + v4;
    var v2 := t.issuer + v3;
    var v1 := t.algorithm + v2;
    var v0 := t.serial + v1;
    TrailerReadsBack(t.unique, t.extensions, t.rest);
    SplitTlv(t.spki, v6);
    SplitTlv(t.subject, v5);
    SplitTlv(t.validity, v4);
    SplitTlv(t.issuer, v3);
    SplitTlv(t.algorithm, v2);
    SplitTlv(t.serial, v1);
    if t.version.Some? { SplitTlv(t.version.value, v0); } else { assert TbsValue(t) == v0; }
  }

  lemma TbsParts(v: bytes)
    requires ReadTbs(v).Some?
    ensures ValidTbs(ReadTbs(v).value) && TbsValue(ReadTbs(v).value) == v
  {
    hide TlvAt, IsTlv, Split;
    SplitParts(v);
    var (first, v0) := Split(v).value;
    var v1 := v0;
    if first[0] == VERSION_TAG { SplitParts(v0); v1 := Split(v0).value.1; }
    SplitParts(v1);
    var v2 := Split(v1).value.1;
    SplitParts(v2);
    var v3 := Split(v2).value.1;
    SplitParts(v3);
    var v4 := Split(v3).value.1;
    SplitParts(v4);
    var v5 := Split(v4).value.1;
    SplitParts(v5);
    TrailerParts(Split(v5).value.1);
    assert first[0] != VERSION_TAG ==> [] + (first + v0) == v;
  }

  /** Contents octets of a TBSCertificate and valid field records are in one-to-one correspondence. */
  lemma TbsReadsExactly(v: bytes, t: Tbs)
    ensures ReadTbs(v) == Some(t) <==> ValidTbs(t) && v == TbsValue(t)
  {
    if ReadTbs(v) == Some(t) { TbsParts(v); }
    if ValidTbs(t) && v == TbsValue(t) { TbsReadsBack(t); }
  }

  ghost predicate ValidCertificate(c: Certificate) {
    && IsTlv(c.tbsTlv) && c.tbsTlv[0] == SEQUENCE && ReadTbs(Value(c.tbsTlv)) == Some(c.tbs)
    && IsTlv(c.sigAlg) && IsTlv(c.signature) && c.signature[0] == BIT_STRING
  }

  /** What the strict reader accepts is one SEQUENCE around the three parts, and conversely. */
  lemma CertificateReadsExactly(der: bytes, c: Certificate)
    ensures ReadCertificate(der) == Some(c) <==>
            && IsTlv(der) && der[0] == SEQUENCE && ValidCertificate(c)
            && Value(der) == c.tbsTlv + (c.sigAlg + c.signature)
  {
    if ReadCertificate(der) == Some(c) {
      SplitParts(Value(der));
      SplitParts(Split(Value(der)).value.1);
    }
    if IsTlv(der) && ValidCertificate(c) && Value(der) == c.tbsTlv + (c.sigAlg + c.signature) {
      SplitTlv(c.tbsTlv, c.sigAlg + c.signature);
      SplitTlv(c.sigAlg, c.signature);
    }
  }

  /** A printed certificate reads back as its parts exactly when its length is representable. */
  lemma PrintedReadsBack(c: Certificate)
    requires ValidCertificate(c)
    ensures ReadCertificate(Print(c.tbsTlv, c.sigAlg, c.signature)) == Some(c)
            <==> |c.tbsTlv| + |c.sigAlg| + |c.signature| < Pow256(127)
  {
    hide Pow256;
    var v := c.tbsTlv + (c.sigAlg + c.signature);
    var der := Print(c.tbsTlv, c.sigAlg, c.signature);
    CertificateReadsExactly(der, c);
    WrittenIsTlv(SEQUENCE, v);
  }
}
