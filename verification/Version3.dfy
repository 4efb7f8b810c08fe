/**
 The rewriting of version 3 certificates, told in octets: every tag here is the one that sections 4.1 and 4.1.2.1
 of RFC 5280 give, and nothing depends on how the other modules name them.
 */
module Version3 {
  import opened Bytes
  import opened Der
  import opened Certificates
  import opened Splice
  import opened SpliceProofs

  /** `[0] { INTEGER 2 }`. */
  const VERSION_3: bytes := [0xA0, 3, 2, 1, 2]

  /** `[3] { SEQUENCE { ... } }` around the octets of the extensions. */
  function Wrapped(extensions: bytes): bytes {
    DerString(0xA3, DerString(0x30, extensions))
  }

  /** The contents of a TBSCertificate of version 3, without unique identifiers. */
  function Contents(serial: bytes, algorithm: bytes, issuer: bytes, validity: bytes, subject: bytes, spki: bytes,
                    extensions: bytes): bytes
  {
    [0xA0, 3, 2, 1, 2] + serial + algorithm + issuer + validity + subject + spki + Wrapped(extensions)
  }

  /** A certificate around TBS contents: `SEQUENCE { SEQUENCE { ... }, algorithm, BIT STRING }`. */
  function Around(contents: bytes, algorithm: bytes, signature: bytes): bytes {
    DerString(0x30, DerString(0x30, contents) + algorithm + DerString(0x03, [0] + signature))
  }

  /** The contents read as the seven fields and the wrapper, whatever the fields are. */
  lemma ContentsRead(serial: bytes, algorithm: bytes, issuer: bytes, validity: bytes, subject: bytes, spki: bytes,
                     extensions: bytes)
    requires IsTlv(serial) && IsTlv(algorithm) && IsTlv(issuer) && IsTlv(validity) && IsTlv(subject) && IsTlv(spki)
    requires |Wrapped(extensions)| < Pow256(127)
    ensures ReadTbs(Contents(serial, algorithm, issuer, validity, subject, spki, extensions))
            == Some(Tbs(Some([0xA0, 3, 2, 1, 2]), serial, algorithm, issuer, validity, subject, spki, [],
                        Some(Wrapped(extensions)), []))
  {
    hide TlvAt, Pow256, DerString;
    var t := Tbs(Some(VERSION_3), serial, algorithm, issuer, validity, subject, spki, [], Some(Wrapped(extensions)), []);
    VersionIsTlv();
    WrappedIsTlv(extensions);
    TbsReadsBack(t);
    ContentsAreValue(t, extensions);
  }

  lemma VersionIsTlv()
    ensures IsTlv(VERSION_3)
  {
  }

  lemma WrappedIsTlv(extensions: bytes)
    requires |Wrapped(extensions)| < Pow256(127)
    ensures IsTlv(Wrapped(extensions)) && Wrapped(extensions)[0] == 0xA3
    ensures ExtensionOctets(Wrapped(extensions)) == Some(extensions)
  {
    hide TlvAt, Pow256;
    var list := DerString(0x30, extensions);
    WrittenIsTlv(0xA3, list);
    WrittenIsTlv(0x30, extensions);
    SplitTlv(list, []);
    assert list + [] == list;
  }

  lemma ContentsAreValue(t: Tbs, extensions: bytes)
    requires t.version == Some(VERSION_3) && t.unique == [] && t.rest == [] && t.extensions == Some(Wrapped(extensions))
    ensures Contents(t.serial, t.algorithm, t.issuer, t.validity, t.subject, t.spki, extensions) == TbsValue(t)
  {
    hide Wrapped;
    assert TrailerOctets([], t.extensions, []) == Wrapped(extensions);
    hide TrailerOctets;
  }

  lemma AroundIsPrint(contents: bytes, algorithm: bytes, signature: bytes)
    ensures Around(contents, algorithm, signature)
            == Print(DerString(0x30, contents), algorithm, DerString(0x03, [0] + signature))
  {
    var tbs, sig := DerString(0x30, contents), DerString(0x03, [0] + signature);
    assert tbs + algorithm + sig == tbs + (algorithm + sig);
  }

  lemma AroundReads(t: Tbs, algorithm: bytes, signature: bytes)
    requires ValidTbs(t) && IsTlv(algorithm) && |Around(TbsValue(t), algorithm, signature)| < Pow256(127)
    ensures ReadCertificate(Around(TbsValue(t), algorithm, signature))
            == Some(Certificate(DerString(0x30, TbsValue(t)), t, algorithm, DerString(0x03, [0] + signature)))
  {
    hide TlvAt, ReadTbs, ValidTbs, TbsValue, Pow256, ReadCertificate;
    var c := Certificate(DerString(0x30, TbsValue(t)), t, algorithm, DerString(0x03, [0] + signature));
    AroundIsPrint(TbsValue(t), algorithm, signature);
    WrittenIsTlv(0x30, TbsValue(t));
    WrittenIsTlv(0x03, [0] + signature);
    TbsReadsExactly(TbsValue(t), t);
    PrintedReadsBack(c);
  }

  /**
   Rewriting a version 3 certificate. Whatever its fields are, the issuer and the subject are replaced, the
   blobs are appended to the extensions, the length octets of everything around them are those of the new
   contents, all else stays, and the signature is over the new TBSCertificate.
  */
  lemma RewritesVersion3(serial: bytes, algorithm: bytes, issuer: bytes, validity: bytes, subject: bytes, spki: bytes,
                         extensions: bytes, signature: bytes,
                         newSubject: bytes, newIssuer: bytes, blobs: seq<bytes>, sign: Signer)
    requires IsTlv(serial) && IsTlv(algorithm) && IsTlv(issuer) && IsTlv(validity) && IsTlv(subject) && IsTlv(spki)
    requires IsTlv(newSubject) && newSubject[0] == 0x30 && IsTlv(newIssuer) && newIssuer[0] == 0x30
    requires |Around(Contents(serial, algorithm, issuer, validity, subject, spki, extensions), algorithm, signature)|
             < Pow256(127)
    ensures var was := Contents(serial, algorithm, issuer, validity, subject, spki, extensions);
            var now := Contents(serial, algorithm, newIssuer, validity, newSubject, spki, extensions + Join(blobs));
            Rewrite(Around(was, algorithm, signature), Some(newSubject), Some(newIssuer), blobs, sign)
            == Success(Around(now, algorithm, sign(DerString(0x30, now))))
    ensures var was := Contents(serial, algorithm, issuer, validity, subject, spki, extensions);
            var now := Contents(serial, algorithm, newIssuer, validity, subject, spki, extensions);
            Rewrite(Around(was, algorithm, signature), None, Some(newIssuer), [], sign)
            == Success(Around(now, algorithm, sign(DerString(0x30, now))))
    ensures var was := Contents(serial, algorithm, issuer, validity, subject, spki, extensions);
            var now := Contents(serial, algorithm, issuer, validity, newSubject, spki, extensions);
            Rewrite(Around(was, algorithm, signature), Some(newSubject), None, [], sign)
            == Success(Around(now, algorithm, sign(DerString(0x30, now))))
  {
    var t := Tbs(Some(VERSION_3), serial, algorithm, issuer, validity, subject, spki, [], Some(Wrapped(extensions)), []);
    hide TlvAt, ReadTbs, ReadCertificate, Pow256, DerString, Rewrite, Contents, Around, TbsValue, IsTlv, ExtensionOctets;
    var der := Around(TbsValue(t), algorithm, signature);
    ContentsAreValue(t, extensions);
    WrappedIsShort(t, extensions, algorithm, signature);
    WrappedIsTlv(extensions);
    VersionIsTlv();
    AroundReads(t, algorithm, signature);
    var c := ReadCertificate(der).value;
    OnePass(der, c, t, extensions, Some(newSubject), Some(newIssuer), blobs, sign);
    OnePass(der, c, t, extensions, None, Some(newIssuer), [], sign);
    OnePass(der, c, t, extensions, Some(newSubject), None, [], sign);
    assert extensions + Join([]) == extensions;
  }

  lemma WrappedIsShort(t: Tbs, extensions: bytes, algorithm: bytes, signature: bytes)
    requires t.extensions == Some(Wrapped(extensions))
    ensures |Wrapped(extensions)| <= |TbsValue(t)| <= |Around(TbsValue(t), algorithm, signature)|
  {
    hide Wrapped;
  }

  /** One rewriting of a certificate whose fields are `t`. */
  lemma OnePass(der: bytes, c: Certificate, t: Tbs, extensions: bytes, newSubject: Option<bytes>, newIssuer: Option<bytes>,
                blobs: seq<bytes>, sign: Signer)
    requires ReadCertificate(der) == Some(c) && c.tbs == t
    requires t.version == Some(VERSION_3) && t.unique == [] && t.rest == [] && t.extensions == Some(Wrapped(extensions))
    requires ExtensionOctets(Wrapped(extensions)) == Some(extensions)
    requires newSubject.Some? ==> IsTlv(newSubject.value) && newSubject.value[0] == 0x30
    requires newIssuer.Some? ==> IsTlv(newIssuer.value) && newIssuer.value[0] == 0x30
    ensures var now := Contents(t.serial, t.algorithm, newIssuer.GetOr(t.issuer), t.validity,
                                 newSubject.GetOr(t.subject), t.spki, extensions + Join(blobs));
            Rewrite(der, newSubject, newIssuer, blobs, sign) == Success(Around(now, c.sigAlg, sign(DerString(0x30, now))))
  {
    hide TlvAt, ReadTbs, ReadCertificate, DerString, Rewrite, Contents, Around, TbsValue, IsTlv, ExtensionOctets;
    RewriteComputes(der, c, newSubject, newIssuer, blobs, sign);
    var edited := Edited(t, newSubject, newIssuer, blobs);
    if blobs == [] { assert extensions + Join(blobs) == extensions; }
    ContentsAreValue(edited, extensions + Join(blobs));
    AroundIsPrint(TbsValue(edited), c.sigAlg, sign(DerString(0x30, TbsValue(edited))));
  }

  // ---- one certificate in full ----

  lemma ShortString(tag: byte, value: bytes)
    requires |value| < 0x80
    ensures DerString(tag, value) == [tag, |value|] + value
  {
  }

  /** The contents of a TBSCertificate, octet by octet, a field a line. */
  const ORIGINAL_TBS: bytes :=
    [0xA0, 3, 2, 1, 2]
    + [2, 1, 1]
    + [0x30, 3, 1, 1, 1]
    + [0x30, 0]
    + [0x30, 1, 5]
    + [0x30, 0]
    + [0x30, 0]
    + [0xA3, 2, 0x30, 0]

  /** The same with issuer `30 01 07`, subject `30 01 08`, and one more extension. */
  const REWRITTEN_TBS: bytes :=
    [0xA0, 3, 2, 1, 2]
    + [2, 1, 1]
    + [0x30, 3, 1, 1, 1]
    + [0x30, 1, 7]
    + [0x30, 1, 5]
    + [0x30, 1, 8]
    + [0x30, 0]
    + [0xA3, 4, 0x30, 2, 5, 0]

  /** The certificates around them. */
  const ORIGINAL: bytes := [0x30, 0x25, 0x30, 0x1A] + ORIGINAL_TBS + [0x30, 3, 1, 1, 1] + [0x03, 2, 0, 7]
  const REWRITTEN: bytes := [0x30, 0x29, 0x30, 0x1E] + REWRITTEN_TBS + [0x30, 3, 1, 1, 1] + [0x03, 2, 0, 9]

  lemma ContentsInOctets()
    ensures ORIGINAL_TBS == Contents([2, 1, 1], [0x30, 3, 1, 1, 1], [0x30, 0], [0x30, 1, 5], [0x30, 0], [0x30, 0], [])
    ensures REWRITTEN_TBS
            == Contents([2, 1, 1], [0x30, 3, 1, 1, 1], [0x30, 1, 7], [0x30, 1, 5], [0x30, 1, 8], [0x30, 0], [5, 0])
    ensures |ORIGINAL_TBS| == 0x1A && |REWRITTEN_TBS| == 0x1E
  {
    ShortWrapper([]);
    ShortWrapper([5, 0]);
    hide Wrapped;
  }

  lemma ShortWrapper(extensions: bytes)
    requires |extensions| <= 2
    ensures Wrapped(extensions) == [0xA3, |extensions| + 2, 0x30, |extensions|] + extensions
  {
    ShortString(0x30, extensions);
    ShortString(0xA3, DerString(0x30, extensions));
  }

  lemma SmallAround(contents: bytes, signature: byte)
    requires |contents| <= 40
    ensures Around(contents, [0x30, 3, 1, 1, 1], [signature])
            == [0x30, |contents| + 11, 0x30, |contents|] + contents + [0x30, 3, 1, 1, 1] + [3, 2, 0, signature]
  {
    var tbs, bits := DerString(0x30, contents), DerString(0x03, [0] + [signature]);
    ShortString(0x30, contents);
    ShortString(0x03, [0] + [signature]);
    ShortString(0x30, tbs + [0x30, 3, 1, 1, 1] + bits);
    assert bits == [3, 2, 0, signature];
    hide DerString;
    assert Around(contents, [0x30, 3, 1, 1, 1], [signature])
        == [0x30, |contents| + 11] + (([0x30, |contents|] + contents) + [0x30, 3, 1, 1, 1] + [3, 2, 0, signature]);
  }

  lemma CertificatesInOctets()
    ensures ORIGINAL == Around(ORIGINAL_TBS, [0x30, 3, 1, 1, 1], [7]) && |ORIGINAL| == 39
    ensures REWRITTEN == Around(REWRITTEN_TBS, [0x30, 3, 1, 1, 1], [9])
  {
    assert |ORIGINAL_TBS| == 0x1A && |REWRITTEN_TBS| == 0x1E;
    SmallAround(ORIGINAL_TBS, 7);
    SmallAround(REWRITTEN_TBS, 9);
    hide Around;
  }

  /** What the rewriting makes of it, with a signer that signs with the octet 9. */
  lemma WholeCertificate()
    ensures Rewrite(ORIGINAL, Some([0x30, 1, 8]), Some([0x30, 1, 7]), [[5, 0]], x => [9]) == Success(REWRITTEN)
  {
    OctetBelowPow256(39, 127);
    assert Join([[5, 0]]) == [5, 0] by { assert Join([[5, 0]]) == [5, 0] + Join([]); }
    SmallFields();
    ContentsInOctets();
    CertificatesInOctets();
    hide *;
    RewritesVersion3([2, 1, 1], [0x30, 3, 1, 1, 1], [0x30, 0], [0x30, 1, 5], [0x30, 0], [0x30, 0], [], [7],
                     [0x30, 1, 8], [0x30, 1, 7], [[5, 0]], x => [9]);
    assert [] + Join([[5, 0]]) == [5, 0];
  }

  lemma SmallFields()
    ensures IsTlv([2, 1, 1]) && IsTlv([0x30, 3, 1, 1, 1]) && IsTlv([0x30, 0]) && IsTlv([0x30, 1, 5])
    ensures IsTlv([0x30, 1, 7]) && IsTlv([0x30, 1, 8])
  {
  }
}
