/** What holds of every chain that is generated. */
module ChainTheorems {
  import opened Bytes
  import opened Der
  import opened Certificates
  import opened Splice
  import opened SpliceProofs
  import opened SpliceTheorems
  import opened Chain
  import opened Files
  import Discovery

  /** The library's certificate `der` for request `r`, signed with `k`. */
  ghost predicate BuildsAsAsked(lib: Library, r: Request, k: Key, der: bytes) {
    var c := ReadCertificate(der);
    && c.Some?
    && c.value.tbs.subject == lib.name(r.subject) && c.value.tbs.issuer == lib.name(r.issuer)
    && c.value.signature == SignatureTlv(c.value.tbsTlv, SignerFor(lib, k))
    && c.value.tbs.spki == lib.publicKey(r.key)
    && c.value.tbs.extensions
       == Some(lib.extensions(Profile(r.key, r.isCa, r.authority, r.san, r.constraints, r.other)))
    && WrapsOneSequence(c.value.tbs.extensions.value)
    && lib.name(lib.subjectOf(der)) == lib.name(r.subject)
  }

  /** A length the reader can represent. */
  predicate IsShort(x: bytes) {
    |x| < Pow256(127)
  }

  /**
   All that is assumed of the certificate library: what it builds is a well-formed certificate with the
   encoded Names, public key and extensions it was asked for, the latter in a `[3]` wrapper around one
   SEQUENCE, signed over its TBS; and the subject it reports for a certificate encodes to the octets it was
   built with. Nothing is assumed of certificates too long for the reader.
  */
  ghost predicate Conforming(lib: Library) {
    forall r: Request, k: Key :: IsShort(lib.build(r, k)) ==> BuildsAsAsked(lib, r, k, lib.build(r, k))
  }

  // ---- one certificate ----

  /**
   The issuer octets, subject octets and signature that reach the disk: explicit raw octets win, then the
   raw subject inherited from the parent, then what the library encodes; the signature is the resolved
   issuer's over the TBS that is written.
  */
  lemma EmittedFields(lib: Library, spec: Spec, byId: map<string, GeneratedCert>, index: nat)
    requires Conforming(lib) && Build(lib, spec, byId, index).Success?
    requires IsShort(Build(lib, spec, byId, index).value.cert) && IsShort(Build(lib, spec, byId, index).value.Emitted())
    ensures ResolveIssuer(spec, byId, index).Success?
    ensures var g, issuer := Build(lib, spec, byId, index).value, ResolveIssuer(spec, byId, index).value;
            var c := ReadCertificate(g.Emitted());
            && c.Some?
            && c.value.tbs.subject == (if spec.rawSubject.Some? then spec.rawSubject.value else lib.name(spec.subject))
            && c.value.tbs.issuer == (if RawIssuer(spec, issuer).Some? then RawIssuer(spec, issuer).value
                                      else lib.name(IssuerName(lib, spec, issuer)))
            && c.value.signature == SignatureTlv(c.value.tbsTlv, SignerFor(lib, IssuerKey(spec, issuer)))
            && g.certId == spec.id && g.key == spec.key && g.isCa == spec.isCa && g.rawSubject == spec.rawSubject
            && lib.name(lib.subjectOf(g.cert)) == lib.name(spec.subject)
  {
    hide TlvAt, ReadCertificate, ReadTbs, Rewrite, TbsValue, IsTlv, ExtensionOctets, CheckExtensions, DerString, Pow256;
    var issuer := ResolveIssuer(spec, byId, index).value;
    var key, request, raw := IssuerKey(spec, issuer), RequestFor(lib, spec, issuer), RawIssuer(spec, issuer);
    var cert := lib.build(request, key);
    assert BuildsAsAsked(lib, request, key, cert);
    var c, g := ReadCertificate(cert).value, Build(lib, spec, byId, index).value;
    OneSequence(c.tbs.extensions.value);
    if g.rawDer.Some? {
      var sign := SignerFor(lib, key);
      RewriteRefuses(cert, c, spec.rawSubject, raw, spec.rawExtensions, sign);
      SpliceCorrect(cert, c, spec.rawSubject, raw, spec.rawExtensions, sign);
      RewriteComputes(cert, c, spec.rawSubject, raw, spec.rawExtensions, sign);
      ShortIsRepresentable(Signed(Edited(c.tbs, spec.rawSubject, raw, spec.rawExtensions), c.sigAlg, sign));
    }
  }

  /**
   What the generator builds always has extensions to append to, and nothing else in their wrapper, so the
   rewriting copies all of the wrapper and nothing from behind it; and building a certificate whose issuer
   and extensions are in order fails exactly on a raw Name that is not one SEQUENCE TLV.
  */
  lemma BuildFailsOnNamesOnly(lib: Library, spec: Spec, byId: map<string, GeneratedCert>, index: nat)
    requires Conforming(lib) && ResolveIssuer(spec, byId, index).Success? && CheckExtensions(spec).Success?
    requires var issuer := ResolveIssuer(spec, byId, index).value;
             IsShort(lib.build(RequestFor(lib, spec, issuer), IssuerKey(spec, issuer)))
    ensures var issuer := ResolveIssuer(spec, byId, index).value;
            var c := ReadCertificate(lib.build(RequestFor(lib, spec, issuer), IssuerKey(spec, issuer)));
            && c.Some? && c.value.tbs.extensions.Some? && IsTlv(c.value.tbs.extensions.value) && FillsTheWrapper(c.value)
            && (Build(lib, spec, byId, index).Success? <==> NamesValid(spec.rawSubject, RawIssuer(spec, issuer)))
  {
    hide TlvAt, ReadCertificate, Rewrite, IsTlv, ExtensionOctets, CheckExtensions, IsShort, IsName,
      BehindWrapper, BehindList, WrapsOneSequence, ResolveIssuer;
    var issuer := ResolveIssuer(spec, byId, index).value;
    var key, request := IssuerKey(spec, issuer), RequestFor(lib, spec, issuer);
    var cert := lib.build(request, key);
    assert BuildsAsAsked(lib, request, key, cert);
    var c := ReadCertificate(cert).value;
    RewriteRefuses(cert, c, spec.rawSubject, RawIssuer(spec, issuer), spec.rawExtensions, SignerFor(lib, key));
    ApplicableIsExact(cert, c, spec.rawSubject, RawIssuer(spec, issuer), spec.rawExtensions, SignerFor(lib, key));
    FittingList(c);
    FillingList(c);
  }

  lemma ShortIsRepresentable(c: Certificate)
    requires |Print(c.tbsTlv, c.sigAlg, c.signature)| < Pow256(127)
    ensures Representable(c)
  {
    hide Pow256;
  }

  // ---- whole runs ----

  /** Entry `i` of a successful run: where it ended up, and that it was issued over the entries before it. */
  lemma {:induction false} RunShape(lib: Library, anchor: GeneratedCert, specs: seq<Spec>, n: nat, i: nat)
    requires i < n <= |specs| && After(lib, anchor, specs, n).Success?
    ensures After(lib, anchor, specs, i).Success?
    ensures var s, before := After(lib, anchor, specs, n).value, After(lib, anchor, specs, i).value;
            && |s.inOrder| == n && |before.inOrder| == i
            && Issue(lib, anchor, specs[i], i, before.byId) == Success(s.inOrder[i])
            && s.inOrder[i].certId == specs[i].id
            && specs[i].id in s.byId && s.byId[specs[i].id] == s.inOrder[i]
            && specs[i].id !in before.byId
    decreases n
  {
    hide Rewrite, CheckExtensions, ValidateAnchor, SafeFilename, Build, CertFile;
    RunLength(lib, anchor, specs, n - 1);
    if i < n - 1 {
      RunShape(lib, anchor, specs, n - 1, i);
    } else if i > 0 {
      BuildKeepsId(lib, specs[i], After(lib, anchor, specs, i).value.byId, i);
    }
  }

  lemma {:induction false} RunLength(lib: Library, anchor: GeneratedCert, specs: seq<Spec>, n: nat)
    requires n <= |specs| && After(lib, anchor, specs, n).Success?
    ensures |After(lib, anchor, specs, n).value.inOrder| == n
    ensures |After(lib, anchor, specs, n).value.files| == n
  {
    hide Issue, SafeFilename;
    if n > 0 { RunLength(lib, anchor, specs, n - 1); }
  }

  /** Every key of the map is the id of an earlier entry, and maps to what was issued for it. */
  lemma {:induction false} MapHoldsEntries(lib: Library, anchor: GeneratedCert, specs: seq<Spec>, n: nat, id: string)
    returns (j: nat)
    requires n <= |specs| && After(lib, anchor, specs, n).Success? && id in After(lib, anchor, specs, n).value.byId
    ensures j < n && specs[j].id == id
    ensures var s := After(lib, anchor, specs, n).value; |s.inOrder| == n && s.byId[id] == s.inOrder[j]
  {
    hide Issue, SafeFilename;
    RunLength(lib, anchor, specs, n);
    if specs[n - 1].id == id {
      j := n - 1;
    } else {
      j := MapHoldsEntries(lib, anchor, specs, n - 1, id);
    }
  }

  /** The latest entry before `i` with the id that entry `i` names as its issuer. */
  function IssuerIndex(specs: seq<Spec>, i: nat, bound: nat): (j: Option<nat>)
    requires bound <= i < |specs|
    ensures j.Some? ==> j.value < bound && specs[i].issuer == Some(specs[j.value].id)
  {
    if bound == 0 then None
    else if specs[i].issuer == Some(specs[bound - 1].id) then Some(bound - 1)
    else IssuerIndex(specs, i, bound - 1)
  }

  /** The entry whose certificate issued entry `i`; None for a self-signed one. */
  function Parent(specs: seq<Spec>, i: nat): (j: Option<nat>)
    requires i < |specs|
    ensures j.Some? ==> j.value < i && specs[i].issuer == Some(specs[j.value].id)
  {
    if specs[i].SelfSigned() then None else IssuerIndex(specs, i, i)
  }

  lemma {:induction false} IssuerIndexFinds(specs: seq<Spec>, i: nat, bound: nat, j: nat)
    requires bound <= i < |specs| && j < bound && specs[i].issuer == Some(specs[j].id)
    ensures IssuerIndex(specs, i, bound).Some?
  {
    if j < bound - 1 && specs[i].issuer != Some(specs[bound - 1].id) { IssuerIndexFinds(specs, i, bound - 1, j); }
  }

  /** Ids are distinct in a successful run. */
  lemma IdsAreDistinct(lib: Library, anchor: GeneratedCert, specs: seq<Spec>, i: nat, j: nat)
    requires i < j < |specs| && After(lib, anchor, specs, |specs|).Success?
    ensures specs[i].id != specs[j].id
  {
    hide Issue, SafeFilename;
    RunShape(lib, anchor, specs, |specs|, j);
    RunShape(lib, anchor, specs, j, i);
  }

  /**
   Issuer resolution in a successful run: entry `i >= 1` is self-signed, or its issuer is the certificate
   issued for exactly one earlier entry, which is a CA unless the entry allows otherwise.
  */
  lemma IssuerResolves(lib: Library, anchor: GeneratedCert, specs: seq<Spec>, i: nat)
    requires 1 <= i < |specs| && Generate(lib, anchor, specs).Success?
    ensures After(lib, anchor, specs, i).Success?
    ensures var s, byId := Generate(lib, anchor, specs).value, After(lib, anchor, specs, i).value.byId;
            && |s.inOrder| == |specs| && Build(lib, specs[i], byId, i) == Success(s.inOrder[i])
            && (specs[i].SelfSigned() <==> Parent(specs, i).None?)
            && ResolveIssuer(specs[i], byId, i)
               == Success(if Parent(specs, i).None? then None else Some(s.inOrder[Parent(specs, i).value]))
            && (Parent(specs, i).Some? ==> s.inOrder[Parent(specs, i).value].isCa || specs[i].allowNonCaIssuer)
  {
    hide Rewrite, CheckExtensions, ValidateAnchor, SafeFilename, Step;
    RunShape(lib, anchor, specs, |specs|, i);
    var byId := After(lib, anchor, specs, i).value.byId;
    if !specs[i].SelfSigned() {
      var j := MapHoldsEntries(lib, anchor, specs, i, specs[i].issuer.value);
      IssuerIndexFinds(specs, i, i, j);
      var p := Parent(specs, i).value;
      if p < j { IdsAreDistinct(lib, anchor, specs, p, j); }
      if j < p { IdsAreDistinct(lib, anchor, specs, j, p); }
      RunShape(lib, anchor, specs, |specs|, j);
      RunShape(lib, anchor, specs, i, j);
    }
  }

  // ---- the name link ----

  /** The shared anchor was built by the library for some root entry. */
  ghost predicate IsSharedAnchor(lib: Library, root: Spec, anchor: GeneratedCert) {
    SharedAnchor(lib, root) == Success(anchor) && IsShort(anchor.cert)
  }

  /** Every certificate of the run, as built and as emitted, has a length the reader can represent. */
  ghost predicate AllShort(s: Issued) {
    forall g <- s.inOrder :: IsShort(g.cert) && IsShort(g.Emitted())
  }

  /** The anchor goes to disk as the library built it: its raw fields are dropped. */
  lemma AnchorFields(lib: Library, root: Spec, anchor: GeneratedCert, specs: seq<Spec>)
    requires Conforming(lib) && IsSharedAnchor(lib, root, anchor) && Generate(lib, anchor, specs).Success?
    ensures |Generate(lib, anchor, specs).value.inOrder| == |specs| > 0
    ensures var g := Generate(lib, anchor, specs).value.inOrder[0];
            var c := ReadCertificate(g.Emitted());
            && c.Some? && c.value.tbs.issuer == c.value.tbs.subject == lib.name(root.subject)
            && c.value.signature == SignatureTlv(c.value.tbsTlv, SignerFor(lib, g.key))
            && g.rawSubject.None? && g.isCa && lib.name(lib.subjectOf(g.cert)) == lib.name(root.subject)
  {
    hide TlvAt, ReadCertificate, Rewrite, CheckExtensions, SafeFilename, SignatureTlv, Pow256;
    RunShape(lib, anchor, specs, |specs|, 0);
    assert BuildsAsAsked(lib, RequestFor(lib, root, None), root.key, lib.build(RequestFor(lib, root, None), root.key));
  }

  /** The emitted subject of any certificate is what its children put in their issuer field. */
  lemma SubjectForChildren(lib: Library, root: Spec, anchor: GeneratedCert, specs: seq<Spec>, j: nat)
    requires Conforming(lib) && IsSharedAnchor(lib, root, anchor) && Generate(lib, anchor, specs).Success?
    requires AllShort(Generate(lib, anchor, specs).value) && j < |specs|
    ensures |Generate(lib, anchor, specs).value.inOrder| == |specs|
    ensures var g := Generate(lib, anchor, specs).value.inOrder[j];
            var c := ReadCertificate(g.Emitted());
            c.Some? && c.value.tbs.subject == if g.rawSubject.Some? then g.rawSubject.value
                                               else lib.name(lib.subjectOf(g.cert))
  {
    hide TlvAt, ReadCertificate, Rewrite, Build, ResolveIssuer, SafeFilename, Step, Pow256;
    if j == 0 {
      AnchorFields(lib, root, anchor, specs);
    } else {
      IssuerResolves(lib, anchor, specs, j);
      assert Generate(lib, anchor, specs).value.inOrder[j] in Generate(lib, anchor, specs).value.inOrder;
      EmittedFields(lib, specs[j], After(lib, anchor, specs, j).value.byId, j);
    }
  }

  /**
   The name link, over whole chains: every emitted certificate that is not self-signed and does not choose
   its issuer Name explicitly carries, octet for octet, the emitted subject of the certificate that issued
   it, also when that subject was rewritten and when the issuer is the shared anchor.
  */
  lemma NamesLink(lib: Library, root: Spec, anchor: GeneratedCert, specs: seq<Spec>, i: nat)
    requires Conforming(lib) && IsSharedAnchor(lib, root, anchor) && Generate(lib, anchor, specs).Success?
    requires AllShort(Generate(lib, anchor, specs).value)
    requires 1 <= i < |specs| && !specs[i].SelfSigned()
    requires specs[i].issuerSubject.None? && specs[i].rawIssuer.None?
    ensures |Generate(lib, anchor, specs).value.inOrder| == |specs| && Parent(specs, i).Some?
    ensures var s := Generate(lib, anchor, specs).value;
            var child := ReadCertificate(s.inOrder[i].Emitted());
            var parent := ReadCertificate(s.inOrder[Parent(specs, i).value].Emitted());
            child.Some? && parent.Some? && child.value.tbs.issuer == parent.value.tbs.subject
  {
    hide TlvAt, ReadCertificate, Rewrite, Build, ResolveIssuer, Step, Pow256;
    IssuerResolves(lib, anchor, specs, i);
    var s := Generate(lib, anchor, specs).value;
    assert s.inOrder[i] in s.inOrder;
    EmittedFields(lib, specs[i], After(lib, anchor, specs, i).value.byId, i);
    SubjectForChildren(lib, root, anchor, specs, Parent(specs, i).value);
  }

  /**
   The link of a self-signed certificate to itself, where it can fail: without a raw issuer its issuer stays
   the encoded subject, so a raw subject breaks it unless it is that very encoding; with a raw issuer that
   has to be the subject.
  */
  lemma SelfSignedNamesAgree(lib: Library, anchor: GeneratedCert, specs: seq<Spec>, i: nat)
    requires Conforming(lib) && Generate(lib, anchor, specs).Success?
    requires AllShort(Generate(lib, anchor, specs).value)
    requires 1 <= i < |specs| && specs[i].SelfSigned()
    ensures |Generate(lib, anchor, specs).value.inOrder| == |specs|
    ensures var c := ReadCertificate(Generate(lib, anchor, specs).value.inOrder[i].Emitted());
            var encoded := lib.name(specs[i].subject);
            c.Some? && (c.value.tbs.issuer == c.value.tbs.subject
                        <==> specs[i].rawIssuer.GetOr(encoded) == specs[i].rawSubject.GetOr(encoded))
    ensures var c := ReadCertificate(Generate(lib, anchor, specs).value.inOrder[i].Emitted());
            specs[i].rawIssuer.None? ==>
              (c.value.tbs.issuer == c.value.tbs.subject
               <==> specs[i].rawSubject.None? || specs[i].rawSubject == Some(lib.name(specs[i].subject)))
  {
    hide TlvAt, ReadCertificate, Rewrite, Build, ResolveIssuer, Step, Pow256;
    IssuerResolves(lib, anchor, specs, i);
    var s := Generate(lib, anchor, specs).value;
    assert s.inOrder[i] in s.inOrder;
    EmittedFields(lib, specs[i], After(lib, anchor, specs, i).value.byId, i);
  }

  /** Every certificate the run builds is signed on disk by its issuer's key, over the TBS that is written. */
  lemma SignedByIssuer(lib: Library, anchor: GeneratedCert, specs: seq<Spec>, i: nat)
    requires Conforming(lib) && Generate(lib, anchor, specs).Success?
    requires AllShort(Generate(lib, anchor, specs).value) && 1 <= i < |specs|
    ensures |Generate(lib, anchor, specs).value.inOrder| == |specs|
    ensures var s := Generate(lib, anchor, specs).value;
            var c := ReadCertificate(s.inOrder[i].Emitted());
            var issuer := if Parent(specs, i).None? then i else Parent(specs, i).value;
            c.Some? && c.value.signature == SignatureTlv(c.value.tbsTlv, SignerFor(lib, s.inOrder[issuer].key))
  {
    hide TlvAt, ReadCertificate, Rewrite, Build, ResolveIssuer, Step, SignatureTlv, Pow256;
    IssuerResolves(lib, anchor, specs, i);
    var s := Generate(lib, anchor, specs).value;
    assert s.inOrder[i] in s.inOrder;
    EmittedFields(lib, specs[i], After(lib, anchor, specs, i).value.byId, i);
  }

  // ---- issuers are well-founded ----

  /** The entries met by following issuers from entry `i`. */
  function IssuerPath(specs: seq<Spec>, i: nat): (p: seq<nat>)
    requires i < |specs|
    ensures p != [] && p[0] == i && forall k | 0 <= k < |p| :: p[k] < |specs|
  {
    if Parent(specs, i).None? then [i] else [i] + IssuerPath(specs, Parent(specs, i).value)
  }

  /**
   Following issuers from any certificate of a successful run goes strictly back in generation order,
   from each certificate to the one that issued it, and ends at a self-signed one.
  */
  lemma {:induction false} IssuersAreWellFounded(lib: Library, anchor: GeneratedCert, specs: seq<Spec>, i: nat)
    requires i < |specs| && Generate(lib, anchor, specs).Success?
    ensures var p := IssuerPath(specs, i);
            && specs[p[|p| - 1]].SelfSigned()
            && forall k | 0 <= k < |p| - 1 ::
                 p[k + 1] < p[k] && !specs[p[k]].SelfSigned() && specs[p[k]].issuer == Some(specs[p[k + 1]].id)
  {
    hide Rewrite, Build, ResolveIssuer, SafeFilename;
    if i == 0 {
      RunShape(lib, anchor, specs, |specs|, 0);
    } else {
      IssuerResolves(lib, anchor, specs, i);
      if Parent(specs, i).Some? { IssuersAreWellFounded(lib, anchor, specs, Parent(specs, i).value); }
    }
  }

  // ---- the files of a run ----

  /** The safe file name parts of the first `n` entries of a successful run. */
  function SafeIds(specs: seq<Spec>): seq<string> {
    if specs == [] then []
    else SafeIds(specs[..|specs| - 1]) + [SafeFilename(specs[|specs| - 1].id).GetOr("")]
  }

  lemma {:induction false} FilesAreNumbered(lib: Library, anchor: GeneratedCert, specs: seq<Spec>, n: nat)
    requires n <= |specs| && After(lib, anchor, specs, n).Success?
    ensures |SafeIds(specs[..n])| == n && forall s <- SafeIds(specs[..n]) :: s != []
    ensures After(lib, anchor, specs, n).value.files == Discovery.CertFiles(SafeIds(specs[..n]))
  {
    hide Issue, SafeFilename, CertFile;
    if n > 0 {
      FilesAreNumbered(lib, anchor, specs, n - 1);
      RunLength(lib, anchor, specs, n - 1);
      assert specs[..n][..n - 1] == specs[..n - 1];
      SafeNamesAreSafe(specs[n - 1].id);
    }
  }

  /**
   The certificates of a generated chain of at least two entries are discovered again in generation order,
   whatever order the directory lists its files in.
  */
  lemma GeneratedChainIsDiscovered(lib: Library, anchor: GeneratedCert, specs: seq<Spec>, listing: seq<string>)
    requires |specs| >= 2 && Generate(lib, anchor, specs).Success?
    requires var safes := SafeIds(specs);
             multiset(listing) == multiset(Discovery.CertFiles(safes)) + multiset(Discovery.KeyFiles(safes))
                                  + multiset(Discovery.BUNDLE_FILES)
    ensures Discovery.Discover(listing) == Some(Generate(lib, anchor, specs).value.files)
  {
    hide SafeFilename, CertFile, Discovery.Discover;
    assert specs[..|specs|] == specs;
    FilesAreNumbered(lib, anchor, specs, |specs|);
    Discovery.DiscoveryRecoversOrder(SafeIds(specs), listing);
  }

  function Pems(pem: bytes -> bytes, certs: seq<GeneratedCert>): seq<bytes> {
    seq(|certs|, i requires 0 <= i < |certs| => pem(certs[i].Emitted()))
  }

  /**
   From generation to validation. When the numbered files of a generated chain hold the emitted
   certificates, then whatever order the directory lists them in, the trust anchor that is discovered is the
   first one generated, and the bundle for wolfSSL holds the others from leaf to root, which are the octets
   of the generator's own chain bundle.
  */
  lemma GeneratedChainIsBundled(lib: Library, anchor: GeneratedCert, specs: seq<Spec>, listing: seq<string>,
                                read: string -> bytes, pem: bytes -> bytes)
    requires |specs| >= 2 && Generate(lib, anchor, specs).Success?
    requires var safes := SafeIds(specs);
             multiset(listing) == multiset(Discovery.CertFiles(safes)) + multiset(Discovery.KeyFiles(safes))
                                  + multiset(Discovery.BUNDLE_FILES)
    requires var s := Generate(lib, anchor, specs).value;
             forall i | 0 <= i < |s.files| && i < |s.inOrder| :: read(s.files[i]) == pem(s.inOrder[i].Emitted())
    ensures Discovery.Discover(listing).Some? && |Discovery.Discover(listing).value| == |specs|
    ensures var s, found := Generate(lib, anchor, specs).value, Discovery.Discover(listing).value;
            var middle, leaf := found[1..|specs| - 1], found[|specs| - 1];
            var bundle := read(leaf) + Join(Reverse(Discovery.Contents(read, middle)));
            && |s.inOrder| == |specs| && read(found[0]) == pem(s.inOrder[0].Emitted())
            && bundle == Join(Reverse(Pems(pem, s.inOrder[1..]))) == Discovery.ChainBundle(Pems(pem, s.inOrder))
  {
    hide *;
    FilesOfRun(lib, anchor, specs);
    var s, safes := Generate(lib, anchor, specs).value, SafeIds(specs);
    var pems := Pems(pem, s.inOrder);
    PemsAre(pem, s.inOrder);
    forall i | 0 <= i < |safes| ensures read(CertFile(i, safes[i])) == pems[i] {
      assert read(s.files[i]) == pem(s.inOrder[i].Emitted());
    }
    Discovery.FoundBundlesAgree(safes, pems, listing, read);
  }

  lemma PemsAre(pem: bytes -> bytes, certs: seq<GeneratedCert>)
    ensures |Pems(pem, certs)| == |certs|
    ensures forall i | 0 <= i < |certs| :: Pems(pem, certs)[i] == pem(certs[i].Emitted())
    ensures certs != [] ==> Pems(pem, certs)[1..] == Pems(pem, certs[1..])
  {
  }

  /** The files and certificates of a run, side by side. */
  lemma FilesOfRun(lib: Library, anchor: GeneratedCert, specs: seq<Spec>)
    requires Generate(lib, anchor, specs).Success?
    ensures var s, safes := Generate(lib, anchor, specs).value, SafeIds(specs);
            && |s.inOrder| == |s.files| == |safes| == |specs| && (forall safe <- safes :: safe != [])
            && s.files == Discovery.CertFiles(safes)
            && forall i | 0 <= i < |safes| :: s.files[i] == CertFile(i, safes[i])
  {
    hide SafeFilename, CertFile, Step, SafeIds;
    assert specs[..|specs|] == specs;
    RunLength(lib, anchor, specs, |specs|);
    FilesAreNumbered(lib, anchor, specs, |specs|);
  }
}
