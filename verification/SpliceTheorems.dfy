/** The properties the rewriting is for, over all well-formed certificates and all combinations of edits. */
module SpliceTheorems {
  import opened Bytes
  import opened Der
  import opened Certificates
  import opened Splice
  import opened SpliceProofs

  lemma EditedIsValid(t: Tbs, subject: Option<bytes>, issuer: Option<bytes>, blobs: seq<bytes>)
    requires ValidTbs(t) && Applicable(t, subject, issuer, blobs)
    requires |TbsValue(Edited(t, subject, issuer, blobs))| < Pow256(127)
    ensures ValidTbs(Edited(t, subject, issuer, blobs))
    ensures blobs != [] ==>
      var w := ExtendedWrapper(t.extensions.value, blobs);
      ExtensionOctets(w) == Some(ExtensionOctets(t.extensions.value).value + Join(blobs))
  {
    hide TlvAt, Pow256;
    if blobs != [] {
      var inner := ExtensionOctets(t.extensions.value).value + Join(blobs);
      var list := DerString(SEQUENCE, inner);
      var w := ExtendedWrapper(t.extensions.value, blobs);
      var edited := Edited(t, subject, issuer, blobs);
      assert |w| <= |TrailerOctets(edited.unique, edited.extensions, edited.rest)| <= |TbsValue(edited)|;
      WrittenIsTlv(SEQUENCE, inner);
      WrittenIsTlv(EXTENSIONS_TAG, list);
      SplitTlv(list, []);
      assert list + [] == list;
    }
  }

  /**
   Splice correctness. On every well-formed certificate the rewriting succeeds, and reading its output
   again gives the replacement Names, the old extension octets followed by the new ones, every other field
   and the outer signature algorithm unchanged, and a signature over exactly the new TBS TLV. It reads
   back this way if and only if the output has a length the reader can represent.
  */
  lemma SpliceCorrect(der: bytes, c: Certificate, subject: Option<bytes>, issuer: Option<bytes>,
                      blobs: seq<bytes>, sign: Signer)
    requires ReadCertificate(der) == Some(c) && Applicable(c.tbs, subject, issuer, blobs)
    ensures Rewrite(der, subject, issuer, blobs, sign).Success?
    ensures var out := Rewrite(der, subject, issuer, blobs, sign).value;
            var expected := Signed(Edited(c.tbs, subject, issuer, blobs), c.sigAlg, sign);
            ReadCertificate(out) == Some(expected) <==> Representable(expected)
  {
    hide TlvAt, ReadCertificate, ReadTbs, Rewrite, TbsValue, ValidTbs, Edited, Pow256;
    RewriteComputes(der, c, subject, issuer, blobs, sign);
    var expected := Signed(Edited(c.tbs, subject, issuer, blobs), c.sigAlg, sign);
    if Representable(expected) {
      SignedIsValid(der, c, subject, issuer, blobs, sign);
      PrintedReadsBack(expected);
    } else {
      CertificateReadsExactly(Rewrite(der, subject, issuer, blobs, sign).value, expected);
      WrittenIsTlv(SEQUENCE, expected.tbsTlv + (expected.sigAlg + expected.signature));
    }
  }

  lemma SignedIsValid(der: bytes, c: Certificate, subject: Option<bytes>, issuer: Option<bytes>,
                      blobs: seq<bytes>, sign: Signer)
    requires ReadCertificate(der) == Some(c) && Applicable(c.tbs, subject, issuer, blobs)
    requires Representable(Signed(Edited(c.tbs, subject, issuer, blobs), c.sigAlg, sign))
    ensures ValidCertificate(Signed(Edited(c.tbs, subject, issuer, blobs), c.sigAlg, sign))
    ensures ValidTbs(Edited(c.tbs, subject, issuer, blobs))
  {
    hide TlvAt, ReadCertificate, ReadTbs, TbsValue, ValidTbs, Edited, Pow256;
    CertificateReadsExactly(der, c);
    TbsReadsExactly(Value(c.tbsTlv), c.tbs);
    var t := Edited(c.tbs, subject, issuer, blobs);
    EditedIsValid(c.tbs, subject, issuer, blobs);
    TbsReadsExactly(TbsValue(t), t);
    WrittenIsTlv(SEQUENCE, TbsValue(t));
    WrittenIsTlv(BIT_STRING, [0] + sign(DerString(SEQUENCE, TbsValue(t))));
  }

  function OrElse(a: Option<bytes>, b: Option<bytes>): Option<bytes> {
    if a.Some? then a else b
  }

  /**
   Two passes are one. Rewriting the output of a first rewriting gives, octet for octet, the certificate
   of a single pass with both sets of edits: the later Name wins, and the extension blobs are appended in
   turn. So separate passes commute wherever they do not set the same Name and only one adds extensions.
  */
  lemma PassesFuse(der: bytes, c: Certificate,
                   subject1: Option<bytes>, issuer1: Option<bytes>, blobs1: seq<bytes>,
                   subject2: Option<bytes>, issuer2: Option<bytes>, blobs2: seq<bytes>, sign: Signer)
    requires ReadCertificate(der) == Some(c)
    requires Applicable(c.tbs, subject1, issuer1, blobs1) && Applicable(c.tbs, subject2, issuer2, blobs2)
    requires Representable(Signed(Edited(c.tbs, subject1, issuer1, blobs1), c.sigAlg, sign))
    ensures Rewrite(der, subject1, issuer1, blobs1, sign).Success?
    ensures Rewrite(Rewrite(der, subject1, issuer1, blobs1, sign).value, subject2, issuer2, blobs2, sign)
            == Rewrite(der, OrElse(subject2, subject1), OrElse(issuer2, issuer1), blobs1 + blobs2, sign)
  {
    hide TlvAt, ReadCertificate, ReadTbs, Rewrite, TbsValue, ValidTbs, Edited, IsTlv, ExtensionOctets, Pow256;
    var c1 := Signed(Edited(c.tbs, subject1, issuer1, blobs1), c.sigAlg, sign);
    SpliceCorrect(der, c, subject1, issuer1, blobs1, sign);
    SignedIsValid(der, c, subject1, issuer1, blobs1, sign);
    EditsCompose(der, c, subject1, issuer1, blobs1, subject2, issuer2, blobs2);
    RewriteComputes(Rewrite(der, subject1, issuer1, blobs1, sign).value, c1, subject2, issuer2, blobs2, sign);
    RewriteComputes(der, c, OrElse(subject2, subject1), OrElse(issuer2, issuer1), blobs1 + blobs2, sign);
  }

  lemma EditsCompose(der: bytes, c: Certificate,
                     subject1: Option<bytes>, issuer1: Option<bytes>, blobs1: seq<bytes>,
                     subject2: Option<bytes>, issuer2: Option<bytes>, blobs2: seq<bytes>)
    requires ReadCertificate(der) == Some(c)
    requires Applicable(c.tbs, subject1, issuer1, blobs1) && Applicable(c.tbs, subject2, issuer2, blobs2)
    requires |TbsValue(Edited(c.tbs, subject1, issuer1, blobs1))| < Pow256(127)
    ensures var t1 := Edited(c.tbs, subject1, issuer1, blobs1);
            var subject, issuer := OrElse(subject2, subject1), OrElse(issuer2, issuer1);
            && Applicable(t1, subject2, issuer2, blobs2) && Applicable(c.tbs, subject, issuer, blobs1 + blobs2)
            && Edited(t1, subject2, issuer2, blobs2) == Edited(c.tbs, subject, issuer, blobs1 + blobs2)
  {
    hide TlvAt, ReadCertificate, ReadTbs, TbsValue, ValidTbs, IsTlv, ExtensionOctets, Pow256;
    CertificateReadsExactly(der, c);
    TbsReadsExactly(Value(c.tbsTlv), c.tbs);
    EditedIsValid(c.tbs, subject1, issuer1, blobs1);
    JoinConcat(blobs1, blobs2);
    if blobs1 == [] { assert blobs1 + blobs2 == blobs2; }
    if blobs2 == [] { assert blobs1 + blobs2 == blobs1; }
    if blobs1 != [] && blobs2 != [] {
      var inner := ExtensionOctets(c.tbs.extensions.value).value;
      assert inner + Join(blobs1) + Join(blobs2) == inner + Join(blobs1 + blobs2);
    }
  }

  /** Any two of an issuer pass, a subject pass and an extensions pass commute. */
  lemma PassesCommute(der: bytes, c: Certificate, subject: bytes, issuer: bytes, blobs: seq<bytes>, sign: Signer)
    requires ReadCertificate(der) == Some(c) && Applicable(c.tbs, Some(subject), Some(issuer), blobs)
    requires Representable(Signed(Edited(c.tbs, Some(subject), None, []), c.sigAlg, sign))
    requires Representable(Signed(Edited(c.tbs, None, Some(issuer), []), c.sigAlg, sign))
    requires Representable(Signed(Edited(c.tbs, None, None, blobs), c.sigAlg, sign))
    ensures && Rewrite(der, Some(subject), None, [], sign).Success?
            && Rewrite(der, None, Some(issuer), [], sign).Success?
            && Rewrite(der, None, None, blobs, sign).Success?
    ensures var bySubject := Rewrite(der, Some(subject), None, [], sign).value;
            var byIssuer := Rewrite(der, None, Some(issuer), [], sign).value;
            var byBlobs := Rewrite(der, None, None, blobs, sign).value;
            && Rewrite(bySubject, None, Some(issuer), [], sign) == Rewrite(byIssuer, Some(subject), None, [], sign)
            && Rewrite(bySubject, None, None, blobs, sign) == Rewrite(byBlobs, Some(subject), None, [], sign)
            && Rewrite(byIssuer, None, None, blobs, sign) == Rewrite(byBlobs, None, Some(issuer), [], sign)
            && Rewrite(byBlobs, Some(subject), Some(issuer), [], sign)
               == Rewrite(der, Some(subject), Some(issuer), blobs, sign)
  {
    hide TlvAt, ReadCertificate, Rewrite, Edited, IsTlv, ExtensionOctets, Representable, Pow256;
    PassesFuse(der, c, Some(subject), None, [], None, Some(issuer), [], sign);
    PassesFuse(der, c, None, Some(issuer), [], Some(subject), None, [], sign);
    PassesFuse(der, c, Some(subject), None, [], None, None, blobs, sign);
    PassesFuse(der, c, None, None, blobs, Some(subject), None, [], sign);
    PassesFuse(der, c, None, Some(issuer), [], None, None, blobs, sign);
    PassesFuse(der, c, None, None, blobs, None, Some(issuer), [], sign);
    PassesFuse(der, c, None, None, blobs, Some(subject), Some(issuer), [], sign);
    assert [] + blobs == blobs && blobs + [] == blobs;
  }

  // ---- any number of passes ----

  datatype Edits = Edits(subject: Option<bytes>, issuer: Option<bytes>, blobs: seq<bytes>)

  /** The passes one after the other, each on what the one before gave. */
  function RunPasses(der: bytes, passes: seq<Edits>, sign: Signer): Result<bytes, DerError> {
    if passes == [] then Success(der)
    else
      var before :- RunPasses(der, passes[..|passes| - 1], sign);
      var p := passes[|passes| - 1];
      Rewrite(before, p.subject, p.issuer, p.blobs, sign)
  }

  /** Their edits in one: the last Name set, and all blobs in turn. */
  function Merged(passes: seq<Edits>): Edits {
    if passes == [] then Edits(None, None, [])
    else
      var m, p := Merged(passes[..|passes| - 1]), passes[|passes| - 1];
      Edits(OrElse(p.subject, m.subject), OrElse(p.issuer, m.issuer), m.blobs + p.blobs)
  }

  predicate AppliesTo(t: Tbs, e: Edits) {
    Applicable(t, e.subject, e.issuer, e.blobs)
  }

  lemma {:induction false} MergedApplies(t: Tbs, passes: seq<Edits>)
    requires forall i | 0 <= i < |passes| :: AppliesTo(t, passes[i])
    ensures AppliesTo(t, Merged(passes))
  {
    hide ExtensionOctets, IsName;
    if passes != [] { MergedApplies(t, passes[..|passes| - 1]); }
  }

  /** The certificates between the passes have lengths the reader can represent. */
  ghost predicate PassesRepresentable(c: Certificate, passes: seq<Edits>, sign: Signer)
    requires forall i | 0 <= i < |passes| :: AppliesTo(c.tbs, passes[i])
  {
    forall k | 0 < k < |passes| :: MergedRepresentable(c, passes[..k], sign)
  }

  ghost predicate MergedRepresentable(c: Certificate, passes: seq<Edits>, sign: Signer)
    requires forall i | 0 <= i < |passes| :: AppliesTo(c.tbs, passes[i])
  {
    MergedApplies(c.tbs, passes);
    var m := Merged(passes);
    Representable(Signed(Edited(c.tbs, m.subject, m.issuer, m.blobs), c.sigAlg, sign))
  }

  /**
   However many passes, they are one: running them gives, octet for octet, the certificate of a single pass
   with the merged edits. So passes whose edits merge to the same give the same in any order.
  */
  lemma {:induction false} PassesMerge(der: bytes, c: Certificate, passes: seq<Edits>, sign: Signer)
    requires ReadCertificate(der) == Some(c) && passes != []
    requires forall i | 0 <= i < |passes| :: AppliesTo(c.tbs, passes[i])
    requires PassesRepresentable(c, passes, sign)
    ensures var m := Merged(passes); RunPasses(der, passes, sign) == Rewrite(der, m.subject, m.issuer, m.blobs, sign)
  {
    hide ReadCertificate, Rewrite, Edited, ExtensionOctets, IsName, Representable, Signed;
    var init, p := passes[..|passes| - 1], passes[|passes| - 1];
    if init == [] {
      assert Merged(init) == Edits(None, None, []) && [] + p.blobs == p.blobs;
    } else {
      assert forall k | 0 < k < |init| :: init[..k] == passes[..k];
      PassesMerge(der, c, init, sign);
      MergedApplies(c.tbs, init);
      assert MergedRepresentable(c, init, sign);
      var m := Merged(init);
      PassesFuse(der, c, m.subject, m.issuer, m.blobs, p.subject, p.issuer, p.blobs, sign);
    }
  }

  /** The six orders of a subject pass, an issuer pass and an extensions pass all give the single pass. */
  lemma AnyOrderOfThree(der: bytes, c: Certificate, subject: bytes, issuer: bytes, blobs: seq<bytes>,
                        order: seq<Edits>, sign: Signer)
    requires ReadCertificate(der) == Some(c) && Applicable(c.tbs, Some(subject), Some(issuer), blobs)
    requires multiset(order) == multiset{Edits(Some(subject), None, []), Edits(None, Some(issuer), []),
                                         Edits(None, None, blobs)}
    ensures forall i | 0 <= i < |order| :: AppliesTo(c.tbs, order[i])
    ensures PassesRepresentable(c, order, sign)
            ==> RunPasses(der, order, sign) == Rewrite(der, Some(subject), Some(issuer), blobs, sign)
  {
    hide ReadCertificate, Rewrite, Edited, ExtensionOctets, IsName, Merged;
    forall i | 0 <= i < |order| ensures AppliesTo(c.tbs, order[i]) {
      assert order[i] in multiset(order);
    }
    ThreeMerge(subject, issuer, blobs, order);
    if PassesRepresentable(c, order, sign) { PassesMerge(der, c, order, sign); }
  }

  lemma ThreeMerge(subject: bytes, issuer: bytes, blobs: seq<bytes>, order: seq<Edits>)
    requires multiset(order) == multiset{Edits(Some(subject), None, []), Edits(None, Some(issuer), []),
                                         Edits(None, None, blobs)}
    ensures |order| == 3 && Merged(order) == Edits(Some(subject), Some(issuer), blobs)
  {
    assert |multiset(order)| == 3;
    assert order == [order[0], order[1], order[2]];
    MergedThree(order);
    hide Merged, MergeThree;
    Permuted(order[0], order[1], order[2],
             Edits(Some(subject), None, []), Edits(None, Some(issuer), []), Edits(None, None, blobs));
    SixMerges(subject, issuer, blobs);
  }

  /** Three edits merged in turn. */
  function MergeThree(a: Edits, b: Edits, d: Edits): Edits {
    Edits(OrElse(d.subject, OrElse(b.subject, a.subject)), OrElse(d.issuer, OrElse(b.issuer, a.issuer)),
          (a.blobs + b.blobs) + d.blobs)
  }

  lemma SixMerges(subject: bytes, issuer: bytes, blobs: seq<bytes>)
    ensures var x, y, z := Edits(Some(subject), None, []), Edits(None, Some(issuer), []), Edits(None, None, blobs);
            var all := Edits(Some(subject), Some(issuer), blobs);
            && MergeThree(x, y, z) == all && MergeThree(x, z, y) == all && MergeThree(y, x, z) == all
            && MergeThree(y, z, x) == all && MergeThree(z, x, y) == all && MergeThree(z, y, x) == all
  {
    assert ([] + []) + blobs == blobs && ([] + blobs) + [] == blobs && (blobs + []) + [] == blobs;
  }

  lemma Permuted<T>(a: T, b: T, d: T, x: T, y: T, z: T)
    requires multiset{a, b, d} == multiset{x, y, z} && x != y && y != z && x != z
    ensures (a == x && ((b == y && d == z) || (b == z && d == y)))
         || (a == y && ((b == x && d == z) || (b == z && d == x)))
         || (a == z && ((b == x && d == y) || (b == y && d == x)))
  {
    var m := multiset{a, b, d};
    assert x in m && y in m && z in m;
  }

  lemma MergedThree(order: seq<Edits>)
    requires |order| == 3
    ensures Merged(order) == MergeThree(order[0], order[1], order[2])
  {
    assert order[..2][..1] == order[..1] && order[..1][..0] == [];
    assert Merged(order[..1]) == order[0] by { assert [] + order[0].blobs == order[0].blobs; }
    assert Merged(order[..2]) == Edits(OrElse(order[1].subject, order[0].subject),
                                       OrElse(order[1].issuer, order[0].issuer), order[0].blobs + order[1].blobs);
  }

  /** The length octets of `x` are the ones the writer would choose. */
  predicate IsMinimal(x: bytes) {
    IsTlv(x) && x == DerString(x[0], Value(x))
  }

  /**
   Without edits the rewriting is the identity on the TBS exactly when the TBS was minimally encoded, and
   on the whole certificate exactly when in addition the outer length was minimal and the signature was
   already the one this signer makes.
  */
  lemma NoEditsIsIdentity(der: bytes, c: Certificate, sign: Signer)
    requires ReadCertificate(der) == Some(c)
    ensures Applicable(c.tbs, None, None, [])
    ensures Signed(Edited(c.tbs, None, None, []), c.sigAlg, sign).tbsTlv == c.tbsTlv <==> IsMinimal(c.tbsTlv)
    ensures Rewrite(der, None, None, [], sign) == Success(der)
            <==> IsMinimal(der) && IsMinimal(c.tbsTlv) && c.signature == SignatureTlv(c.tbsTlv, sign)
  {
    hide TlvAt, ReadCertificate, ReadTbs, Rewrite, TbsValue, ValidTbs, Pow256;
    CertificateReadsExactly(der, c);
    TbsReadsExactly(Value(c.tbsTlv), c.tbs);
    RewriteComputes(der, c, None, None, [], sign);
    var x := Signed(c.tbs, c.sigAlg, sign);
    assert Edited(c.tbs, None, None, []) == c.tbs;
    if Rewrite(der, None, None, [], sign) == Success(der) {
      var tail, tail' := x.sigAlg + x.signature, c.sigAlg + c.signature;
      assert der == DerString(SEQUENCE, x.tbsTlv + tail);
      WrittenTlvIsWhole(SEQUENCE, x.tbsTlv + tail);
      WrittenIsTlv(SEQUENCE, x.tbsTlv + tail);
      WrittenIsTlv(SEQUENCE, TbsValue(c.tbs));
      SplitTlv(x.tbsTlv, tail);
      SplitTlv(c.tbsTlv, tail');
      assert tail == tail' && tail[|c.sigAlg|..] == x.signature && tail'[|c.sigAlg|..] == c.signature;
    }
  }

  predicate NamesValid(subject: Option<bytes>, issuer: Option<bytes>) {
    (subject.Some? ==> IsName(subject.value)) && (issuer.Some? ==> IsName(issuer.value))
  }

  /**
   The refusals: a raw Name that is not one SEQUENCE TLV; extensions without a wrapper to extend; and a
   wrapper behind whose header no TLV, or one that is no SEQUENCE, is read. Everything else succeeds.
  */
  lemma RewriteRefuses(der: bytes, c: Certificate, subject: Option<bytes>, issuer: Option<bytes>,
                       blobs: seq<bytes>, sign: Signer)
    requires ReadCertificate(der) == Some(c)
    ensures c.tbs.extensions.Some? ==> IsTlv(c.tbs.extensions.value)
    ensures !NamesValid(subject, issuer) ==> Rewrite(der, subject, issuer, blobs, sign).Failure?
    ensures NamesValid(subject, issuer) && blobs != [] && c.tbs.extensions.None?
            ==> Rewrite(der, subject, issuer, blobs, sign) == Failure(NoExtensionsBlock)
    ensures NamesValid(subject, issuer) && blobs != [] && c.tbs.extensions.Some?
            ==> var list := TlvAt(BehindWrapper(c), 0);
                && (list.Failure? ==> Rewrite(der, subject, issuer, blobs, sign) == Failure(list.error))
                && (list.Success? && list.value.tag != SEQUENCE
                    ==> Rewrite(der, subject, issuer, blobs, sign) == Failure(NotSequence))
                && (list.Success? && list.value.tag == SEQUENCE
                    ==> Rewrite(der, subject, issuer, blobs, sign).Success?)
    ensures NamesValid(subject, issuer) && blobs == [] ==> Rewrite(der, subject, issuer, blobs, sign).Success?
  {
    hide TlvAt, ReadCertificate, Rewrite, ValidateSingle, IsName, BehindWrapper, IsTlv, TbsValue, Resigned;
    ValidatesNames(subject);
    ValidatesNames(issuer);
    RewriteRefines(der, c, subject, issuer, blobs, sign);
  }

  /** The TLV read as the extension list ends where the wrapper does, or before. */
  predicate StaysInside(c: Certificate)
    requires c.tbs.extensions.Some? ==> IsTlv(c.tbs.extensions.value)
  {
    && c.tbs.extensions.Some?
    && TlvAt(BehindWrapper(c), 0).Success?
    && TlvAt(BehindWrapper(c), 0).value.valueEnd <= |Value(c.tbs.extensions.value)|
  }

  /**
   Where the rewriting is right. On a well-formed certificate it succeeds without copying an octet from
   behind the `[3]` wrapper if and only if the Names are SEQUENCE TLVs and, for a non-empty list of blobs,
   there is a wrapper that holds a SEQUENCE.
  */
  lemma ApplicableIsExact(der: bytes, c: Certificate, subject: Option<bytes>, issuer: Option<bytes>,
                          blobs: seq<bytes>, sign: Signer)
    requires ReadCertificate(der) == Some(c)
    ensures c.tbs.extensions.Some? ==> IsTlv(c.tbs.extensions.value)
    ensures Applicable(c.tbs, subject, issuer, blobs)
            <==> Rewrite(der, subject, issuer, blobs, sign).Success? && (blobs == [] || StaysInside(c))
  {
    hide TlvAt, ReadCertificate, Rewrite, IsName, BehindWrapper, IsTlv, ExtensionOctets;
    RewriteRefuses(der, c, subject, issuer, blobs, sign);
    if blobs != [] && c.tbs.extensions.Some? { FittingList(c); }
  }

  /** The TLV read as the extension list ends exactly where the wrapper does. */
  predicate FillsTheWrapper(c: Certificate)
    requires c.tbs.extensions.Some? ==> IsTlv(c.tbs.extensions.value)
  {
    StaysInside(c) && TlvAt(BehindWrapper(c), 0).value.valueEnd == |Value(c.tbs.extensions.value)|
  }

  /**
   Where it copies neither too much nor too little. With blobs to append, the rewriting succeeds and the list
   it copies ends exactly where the wrapper does if and only if the Names are SEQUENCE TLVs and the wrapper
   holds one SEQUENCE and nothing else.
  */
  lemma ExtendsExactly(der: bytes, c: Certificate, subject: Option<bytes>, issuer: Option<bytes>,
                       blobs: seq<bytes>, sign: Signer)
    requires ReadCertificate(der) == Some(c) && blobs != []
    ensures c.tbs.extensions.Some? ==> IsTlv(c.tbs.extensions.value)
    ensures NamesValid(subject, issuer) && c.tbs.extensions.Some? && WrapsOneSequence(c.tbs.extensions.value)
            <==> Rewrite(der, subject, issuer, blobs, sign).Success? && FillsTheWrapper(c)
  {
    hide TlvAt, ReadCertificate, Rewrite, IsName, BehindWrapper, IsTlv, ExtensionOctets, WrapsOneSequence, BehindList;
    RewriteRefuses(der, c, subject, issuer, blobs, sign);
    if c.tbs.extensions.Some? { FillingList(c); }
  }

  /**
   When the wrapper holds more than the SEQUENCE, that is lost. Reading the output gives a wrapper with the
   extended list and nothing behind it, so what stood behind the list in the old one is there again if and
   only if nothing did.
  */
  lemma NothingBehindTheListSurvives(der: bytes, c: Certificate, subject: Option<bytes>, issuer: Option<bytes>,
                                     blobs: seq<bytes>, sign: Signer)
    requires ReadCertificate(der) == Some(c) && Applicable(c.tbs, subject, issuer, blobs) && blobs != []
    requires Representable(Signed(Edited(c.tbs, subject, issuer, blobs), c.sigAlg, sign))
    ensures Rewrite(der, subject, issuer, blobs, sign).Success?
    ensures var w, after := c.tbs.extensions.value, ReadCertificate(Rewrite(der, subject, issuer, blobs, sign).value);
            && after.Some? && after.value.tbs.extensions.Some?
            && var w' := after.value.tbs.extensions.value;
               && ExtensionOctets(w') == Some(ExtensionOctets(w).value + Join(blobs))
               && BehindList(w') == []
               && (BehindList(w') == BehindList(w) <==> WrapsOneSequence(w))
  {
    hide TlvAt, ReadCertificate, ReadTbs, Rewrite, TbsValue, ValidTbs, IsTlv, ExtensionOctets, ExtendedWrapper, Pow256,
      BehindList, WrapsOneSequence;
    SpliceCorrect(der, c, subject, issuer, blobs, sign);
    SignedIsValid(der, c, subject, issuer, blobs, sign);
    CertificateReadsExactly(der, c);
    TbsReadsExactly(Value(c.tbsTlv), c.tbs);
    EditedIsValid(c.tbs, subject, issuer, blobs);
    WrapperIsTlv(c.tbs);
    WrapperIsTlv(Edited(c.tbs, subject, issuer, blobs));
    OneSequence(c.tbs.extensions.value);
    ExtendedWrapperIsFilled(c.tbs.extensions.value, blobs);
  }

  lemma WrapperIsTlv(t: Tbs)
    requires ValidTbs(t) && t.extensions.Some?
    ensures IsTlv(t.extensions.value)
  {
  }

  lemma ExtendedWrapperIsFilled(w: bytes, blobs: seq<bytes>)
    requires ExtensionOctets(w).Some? && IsTlv(ExtendedWrapper(w, blobs))
    requires ExtensionOctets(ExtendedWrapper(w, blobs)).Some?
    ensures BehindList(ExtendedWrapper(w, blobs)) == []
  {
    hide TlvAt, ExtensionOctets, Pow256;
    var contents := ExtensionOctets(w).value + Join(blobs);
    var inner, w' := DerString(SEQUENCE, contents), ExtendedWrapper(w, blobs);
    WrittenTlvIsWhole(EXTENSIONS_TAG, inner);
    HeaderIsShort(w');
    WrittenIsTlv(SEQUENCE, contents);
    OneSequence(w');
  }

  /**
   And where it is wrong: with valid Names and blobs to append, a wrapper that holds no SEQUENCE is either
   refused, or the SEQUENCE read there runs past the wrapper. The contents of that one, octets of the fields
   behind the wrapper included, then go into the new wrapper in front of the blobs.
  */
  lemma ReadsBehindTheWrapper(der: bytes, c: Certificate, subject: Option<bytes>, issuer: Option<bytes>,
                              blobs: seq<bytes>, sign: Signer)
    requires ReadCertificate(der) == Some(c) && NamesValid(subject, issuer) && blobs != []
    requires c.tbs.extensions.Some? && ExtensionOctets(c.tbs.extensions.value).None?
    ensures IsTlv(c.tbs.extensions.value)
    ensures var list, r := TlvAt(BehindWrapper(c), 0), Rewrite(der, subject, issuer, blobs, sign);
            r.Failure? || (
              && list.Success? && list.value.valueStart <= list.value.valueEnd <= |BehindWrapper(c)|
              && |Value(c.tbs.extensions.value)| < list.value.valueEnd
              && var copied := BehindWrapper(c)[list.value.valueStart..list.value.valueEnd];
                 var wrapper := DerString(EXTENSIONS_TAG, DerString(SEQUENCE, copied + Join(blobs)));
                 r == Success(Resigned(TbsValue(EditedNames(c.tbs, subject, issuer, Some(wrapper))), c.sigAlg, sign)))
  {
    hide ReadCertificate, Rewrite, IsName, ExtensionOctets, ValidateSingle, TbsValue, Resigned, BehindWrapper;
    RewriteRefines(der, c, subject, issuer, blobs, sign);
    ValidatesNames(subject);
    ValidatesNames(issuer);
    FittingList(c);
  }

  /** The individual extensions inside a wrapper. */
  function ExtensionList(wrapper: bytes): Option<seq<bytes>> {
    var octets :- ExtensionOctets(wrapper);
    SplitAll(octets)
  }

  /**
   Seen as lists, the extensions of the output are those of the input followed by the appended blobs, with
   order and duplicates kept, exactly when every blob is one TLV.
  */
  lemma ExtensionsAreAppended(der: bytes, c: Certificate, blobs: seq<bytes>, sign: Signer)
    requires ReadCertificate(der) == Some(c) && blobs != [] && Applicable(c.tbs, None, None, blobs)
    requires ExtensionList(c.tbs.extensions.value).Some?
    requires Representable(Signed(Edited(c.tbs, None, None, blobs), c.sigAlg, sign))
    ensures Rewrite(der, None, None, blobs, sign).Success?
    ensures var after := ReadCertificate(Rewrite(der, None, None, blobs, sign).value);
            && after.Some? && after.value.tbs.extensions.Some?
            && (ExtensionList(after.value.tbs.extensions.value)
                == Some(ExtensionList(c.tbs.extensions.value).value + blobs)
                <==> forall x <- blobs :: IsTlv(x))
  {
    hide TlvAt, ReadCertificate, ReadTbs, Rewrite, TbsValue, ValidTbs, IsTlv, ExtensionOctets, ExtendedWrapper, Pow256;
    SpliceCorrect(der, c, None, None, blobs, sign);
    CertificateReadsExactly(der, c);
    TbsReadsExactly(Value(c.tbsTlv), c.tbs);
    EditedIsValid(c.tbs, None, None, blobs);
    var octets := ExtensionOctets(c.tbs.extensions.value).value;
    var before := ExtensionList(c.tbs.extensions.value).value;
    SplitAllParts(octets);
    JoinConcat(before, blobs);
    SplitAllInvertsJoin(before + blobs);
    assert (forall x <- before + blobs :: IsTlv(x)) <==> forall x <- blobs :: IsTlv(x);
  }

  /**
   The empty wrapper: the TLV read as the extension list is the signature algorithm behind the TBS, and its
   contents become extensions.
  */
  lemma EmptyWrapperTakesSignatureAlgorithm(der: bytes, c: Certificate, blobs: seq<bytes>, sign: Signer)
    requires ReadCertificate(der) == Some(c) && blobs != []
    requires c.tbs.extensions == Some([EXTENSIONS_TAG, 0]) && c.tbs.rest == [] && c.sigAlg[0] == SEQUENCE
    ensures !Applicable(c.tbs, None, None, blobs)
    ensures IsTlv(c.sigAlg)
    ensures Rewrite(der, None, None, blobs, sign)
            == Success(Resigned(TbsValue(c.tbs.(extensions :=
                 Some(DerString(EXTENSIONS_TAG, DerString(SEQUENCE, Value(c.sigAlg) + Join(blobs)))))), c.sigAlg, sign))
  {
    hide ReadCertificate, ReadTbs, TbsValue, Rewrite, Resigned, Join, DerString;
    CertificateReadsExactly(der, c);
    RewriteRefines(der, c, None, None, blobs, sign);
    assert BehindWrapper(c) == c.sigAlg + c.signature;
    hide BehindWrapper;
    ReadingIsLocal(c.sigAlg, 0, c.sigAlg + c.signature, 0);
  }

  /** An algorithm of five octets, small enough for an inner length to run across it. */
  const SMALL_ALGORITHM: bytes := [0x30, 3, 1, 1, 1]

  /** A well-formed certificate with empty fields and the given wrapper. */
  function Tiny(wrapper: bytes): Certificate {
    var empty: bytes := [0x30, 0];
    Signed(Tbs(None, [0x02, 0], empty, empty, empty, empty, empty, [], Some(wrapper), []), SMALL_ALGORITHM, x => [])
  }

  lemma TinyReadsBack(wrapper: bytes)
    requires |wrapper| <= 6 && IsTlv(wrapper) && wrapper[0] == EXTENSIONS_TAG
    ensures var c := Tiny(wrapper); ReadCertificate(Print(c.tbsTlv, c.sigAlg, c.signature)) == Some(c)
  {
    hide Pow256, TlvAt, TbsValue, ReadTbs, ReadCertificate, ValidTbs;
    var c := Tiny(wrapper);
    TinyFields(wrapper);
    OctetBelowPow256(60, 127);
    TbsReadsExactly(TbsValue(c.tbs), c.tbs);
    WrittenIsTlv(SEQUENCE, TbsValue(c.tbs));
    WrittenIsTlv(BIT_STRING, [0] + []);
    PrintedReadsBack(c);
  }

  lemma TinyFields(wrapper: bytes)
    requires |wrapper| <= 6 && IsTlv(wrapper) && wrapper[0] == EXTENSIONS_TAG
    ensures ValidTbs(Tiny(wrapper).tbs) && |TbsValue(Tiny(wrapper).tbs)| == 12 + |wrapper|
    ensures IsTlv(SMALL_ALGORITHM)
  {
    assert IsTlv([0x30, 0]) && IsTlv([0x02, 0]) && IsTlv(SMALL_ALGORITHM);
    hide IsTlv;
  }

  /**
   Two certificates on which extensions are not what is extended: with an empty wrapper the contents of the
   signature algorithm are, with a wrapper around `30 05` the whole signature algorithm is.
  */
  lemma OverrunInstances(blobs: seq<bytes>, sign: Signer)
    requires blobs != []
    ensures forall wrapper <- [[0xA3, 0], [0xA3, 2, 0x30, 5]] ::
              var c := Tiny(wrapper);
              var der := Print(c.tbsTlv, c.sigAlg, c.signature);
              var copied := if |wrapper| == 2 then [1, 1, 1] else SMALL_ALGORITHM;
              var overrun := DerString(EXTENSIONS_TAG, DerString(SEQUENCE, copied + Join(blobs)));
              && ReadCertificate(der) == Some(c) && !Applicable(c.tbs, None, None, blobs)
              && Rewrite(der, None, None, blobs, sign)
                 == Success(Resigned(TbsValue(c.tbs.(extensions := Some(overrun))), SMALL_ALGORITHM, sign))
  {
    Overrun([0xA3, 0], blobs, sign);
    Overrun([0xA3, 2, 0x30, 5], blobs, sign);
  }

  lemma Overrun(wrapper: bytes, blobs: seq<bytes>, sign: Signer)
    requires blobs != [] && (wrapper == [0xA3, 0] || wrapper == [0xA3, 2, 0x30, 5])
    ensures var c := Tiny(wrapper);
            var der := Print(c.tbsTlv, c.sigAlg, c.signature);
            var copied := if |wrapper| == 2 then [1, 1, 1] else SMALL_ALGORITHM;
            var overrun := DerString(EXTENSIONS_TAG, DerString(SEQUENCE, copied + Join(blobs)));
            && ReadCertificate(der) == Some(c) && !Applicable(c.tbs, None, None, blobs)
            && Rewrite(der, None, None, blobs, sign)
               == Success(Resigned(TbsValue(c.tbs.(extensions := Some(overrun))), SMALL_ALGORITHM, sign))
  {
    hide ReadCertificate, TbsValue, Rewrite, Resigned, Join, DerString, Pow256, ExtensionOctets;
    var c := Tiny(wrapper);
    assert IsTlv(wrapper) && Value(wrapper) == wrapper[2..];
    TinyReadsBack(wrapper);
    RewriteRefines(Print(c.tbsTlv, c.sigAlg, c.signature), c, None, None, blobs, sign);
    FittingList(c);
    OverrunningList(wrapper, c.signature);
    assert BehindWrapper(c) == wrapper[2..] + (SMALL_ALGORITHM + c.signature);
    hide TlvAt, BehindWrapper, IsTlv;
  }

  lemma OverrunningList(wrapper: bytes, signature: bytes)
    requires wrapper == [0xA3, 0] || wrapper == [0xA3, 2, 0x30, 5]
    ensures var all := wrapper[2..] + (SMALL_ALGORITHM + signature);
            && TlvAt(all, 0) == Success(Tlv(SEQUENCE, 0, 2, if |wrapper| == 2 then 5 else 7))
            && all[2..TlvAt(all, 0).value.valueEnd] == if |wrapper| == 2 then [1, 1, 1] else SMALL_ALGORITHM
  {
  }

  /** And one on which octets are lost: of a wrapper around `30 00 05 00` the `05 00` does not come back. */
  lemma LossInstance(blobs: seq<bytes>, sign: Signer)
    requires blobs != []
    ensures var c := Tiny([0xA3, 4, 0x30, 0, 5, 0]);
            var der := Print(c.tbsTlv, c.sigAlg, c.signature);
            var extended := DerString(EXTENSIONS_TAG, DerString(SEQUENCE, Join(blobs)));
            && ReadCertificate(der) == Some(c) && Applicable(c.tbs, None, None, blobs)
            && BehindList(c.tbs.extensions.value) == [5, 0]
            && Rewrite(der, None, None, blobs, sign)
               == Success(Resigned(TbsValue(c.tbs.(extensions := Some(extended))), SMALL_ALGORITHM, sign))
  {
    hide ReadCertificate, TbsValue, Rewrite, Resigned, Join, DerString, Pow256, TlvAt, IsTlv, ExtensionOctets, BehindList;
    var wrapper: bytes := [0xA3, 4, 0x30, 0, 5, 0];
    var c := Tiny(wrapper);
    TwoInTheWrapper();
    TinyReadsBack(wrapper);
    RewriteComputes(Print(c.tbsTlv, c.sigAlg, c.signature), c, None, None, blobs, sign);
    assert [] + Join(blobs) == Join(blobs);
  }

  lemma TwoInTheWrapper()
    ensures var wrapper: bytes := [0xA3, 4, 0x30, 0, 5, 0];
            IsTlv(wrapper) && ExtensionOctets(wrapper) == Some([]) && BehindList(wrapper) == [5, 0]
  {
    var wrapper: bytes := [0xA3, 4, 0x30, 0, 5, 0];
    assert IsTlv(wrapper) && Value(wrapper) == [0x30, 0, 5, 0];
    var v: bytes := [0x30, 0, 5, 0];
    assert TlvAt(v, 0) == Success(Tlv(0x30, 0, 2, 2)) && v[..2] == [0x30, 0] && v[2..] == [5, 0];
    assert IsTlv([0x30, 0]) && Value([0x30, 0]) == [];
  }
}
