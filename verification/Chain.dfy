/**
 Chain generation: `build_certificate`, `build_shared_trust_anchor` and `generate_chain`.

 The certificate library is a record of functions; what is assumed of it is `Conforming`.
 */
module Chain {
  import opened Bytes
  import opened Der
  import opened Splice
  import opened Names
  import opened Files

  datatype Key = Ecdsa(scalar: nat) | Rsa(modulus: nat)

  /** One attribute of a distinguished name; `encoding` is the ASN.1 string type it is pinned to, if any. */
  datatype Attribute = Attribute(oid: seq<nat>, value: string, encoding: Option<nat>)
  type Rdn = seq<Attribute>
  type Name = seq<Rdn>

  /** The library's equality of Names: attribute by attribute, blind to string types. */
  predicate SameName(a: Name, b: Name) {
    |a| == |b| && forall i | 0 <= i < |a| ::
      (set x <- a[i] :: (x.oid, x.value)) == (set x <- b[i] :: (x.oid, x.value))
  }

  datatype Constraints = Constraints(permitted: seq<GeneralName>, excluded: seq<GeneralName>)

  /** What the builder is given. `other` stands for serial, validity, usages and typed extensions. */
  datatype Request = Request(subject: Name, issuer: Name, key: Key, isCa: bool, authority: Option<Key>,
                             san: seq<GeneralName>, constraints: Option<Constraints>, other: nat)

  /** What the extensions of a certificate depend on. */
  datatype Profile = Profile(key: Key, isCa: bool, authority: Option<Key>, san: seq<GeneralName>,
                             constraints: Option<Constraints>, other: nat)

  /**
   The certificate library: Name encoder, public key and extension encoders, builder, the subject accessor,
   and signing.
  */
  datatype Library = Library(
    name: Name -> bytes, publicKey: Key -> bytes, extensions: Profile -> bytes, build: (Request, Key) -> bytes,
    subjectOf: bytes -> Name, sign: (Key, bytes) -> bytes)

  function SignerFor(lib: Library, key: Key): Signer {
    (x: bytes) => lib.sign(key, x)
  }

  /** A certificate entry of the input, its values parsed. */
  datatype Spec = Spec(
    id: string, isCa: bool, subject: Name, key: Key, issuer: Option<string>, selfSignedFlag: bool,
    allowNonCaIssuer: bool, issuerSubject: Option<Name>, rawSubject: Option<bytes>, rawIssuer: Option<bytes>,
    rawExtensions: seq<bytes>, san: seq<GeneralName>, constraints: Option<Constraints>, other: nat)
  {
    predicate SelfSigned() {
      selfSignedFlag || issuer.None? || issuer == Some("self")
    }
  }

  /** `GeneratedCert`; `cert` is what the library built, `rawDer` what rewriting made of it. */
  datatype GeneratedCert = GeneratedCert(
    certId: string, key: Key, cert: bytes, isCa: bool, rawDer: Option<bytes>, rawSubject: Option<bytes>)
  {
    /** `cert_bytes(DER)`: what goes to disk. */
    function Emitted(): bytes {
      if rawDer.Some? then rawDer.value else cert
    }
  }

  datatype ChainError =
    | EmptyChain
    | AnchorNotCa
    | AnchorNotSelfSigned
    | AnchorSubjectMismatch
    | DuplicateId
    | IssuerMissing
    | IssuerUnknown
    | IssuerNotCa
    | EmptySubjectWithoutSan
    | ConstraintsOnNonCa
    | ConstraintsEmpty
    | IssuerChosenTwice
    | UnsafeFileName
    | RewriteFailed(error: DerError)

  // ---- build_certificate ----

  function ResolveIssuer(spec: Spec, byId: map<string, GeneratedCert>, index: nat)
    : Result<Option<GeneratedCert>, ChainError>
  {
    if index > 0 && spec.issuer.None? && !spec.selfSignedFlag then Failure(IssuerMissing)
    else if spec.SelfSigned() then Success(None)
    else if spec.issuer.value !in byId then Failure(IssuerUnknown)
    else if !byId[spec.issuer.value].isCa && !spec.allowNonCaIssuer then Failure(IssuerNotCa)
    else Success(Some(byId[spec.issuer.value]))
  }

  function CheckExtensions(spec: Spec): Result<(), ChainError> {
    if spec.san == [] && spec.subject == [] then Failure(EmptySubjectWithoutSan)
    else if spec.constraints.Some? && !spec.isCa then Failure(ConstraintsOnNonCa)
    else if spec.constraints.Some? && spec.constraints.value.permitted == [] && spec.constraints.value.excluded == []
    then Failure(ConstraintsEmpty)
    else if spec.rawIssuer.Some? && spec.issuerSubject.Some? then Failure(IssuerChosenTwice)
    else Success(())
  }

  function IssuerName(lib: Library, spec: Spec, issuer: Option<GeneratedCert>): Name {
    if issuer.None? then spec.subject
    else if spec.issuerSubject.Some? then spec.issuerSubject.value
    else lib.subjectOf(issuer.value.cert)
  }

  function IssuerKey(spec: Spec, issuer: Option<GeneratedCert>): Key {
    if issuer.None? then spec.key else issuer.value.key
  }

  /** The raw issuer to splice in: an explicit one, or the raw subject inherited from the parent. */
  function RawIssuer(spec: Spec, issuer: Option<GeneratedCert>): Option<bytes> {
    if spec.rawIssuer.None? && spec.issuerSubject.None? && issuer.Some? then issuer.value.rawSubject
    else spec.rawIssuer
  }

  function RequestFor(lib: Library, spec: Spec, issuer: Option<GeneratedCert>): Request {
    Request(spec.subject, IssuerName(lib, spec, issuer), spec.key, spec.isCa,
            if issuer.None? then None else Some(issuer.value.key), spec.san, spec.constraints, spec.other)
  }

  function Build(lib: Library, spec: Spec, byId: map<string, GeneratedCert>, index: nat)
    : Result<GeneratedCert, ChainError>
  {
    var issuer :- ResolveIssuer(spec, byId, index);
    var _ :- CheckExtensions(spec);
    var key := IssuerKey(spec, issuer);
    var cert := lib.build(RequestFor(lib, spec, issuer), key);
    var rawIssuer := RawIssuer(spec, issuer);
    if spec.rawSubject.None? && rawIssuer.None? && spec.rawExtensions == [] then
      Success(GeneratedCert(spec.id, spec.key, cert, spec.isCa, None, spec.rawSubject))
    else
      match Rewrite(cert, spec.rawSubject, rawIssuer, spec.rawExtensions, SignerFor(lib, key))
      case Failure(e) => Failure(RewriteFailed(e))
      case Success(der) => Success(GeneratedCert(spec.id, spec.key, cert, spec.isCa, Some(der), spec.rawSubject))
  }

  // ---- the shared trust anchor ----

  /** `validate_trust_anchor_spec`. */
  function ValidateAnchor(spec: Spec, sharedSubject: Option<Name>): Result<(), ChainError> {
    if !spec.isCa then Failure(AnchorNotCa)
    else if !spec.SelfSigned() then Failure(AnchorNotSelfSigned)
    else if sharedSubject.Some? && !SameName(spec.subject, sharedSubject.value) then Failure(AnchorSubjectMismatch)
    else Success(())
  }

  /** `build_shared_trust_anchor`, from the root entry of the first selected chain. */
  function SharedAnchor(lib: Library, root: Spec): Result<GeneratedCert, ChainError> {
    var _ :- ValidateAnchor(root, None);
    Build(lib, root, map[], 0)
  }

  // ---- generate_chain ----

  /** The local state of `generate_chain`: the map, the list, and the certificate files written. */
  datatype Issued = Issued(byId: map<string, GeneratedCert>, inOrder: seq<GeneratedCert>, files: seq<string>)

  /** The certificate for one entry; the first is the shared anchor without its raw fields. */
  function Issue(lib: Library, anchor: GeneratedCert, spec: Spec, index: nat, byId: map<string, GeneratedCert>)
    : Result<GeneratedCert, ChainError>
  {
    if index == 0 then
      var _ :- ValidateAnchor(spec, Some(lib.subjectOf(anchor.cert)));
      Success(GeneratedCert(spec.id, anchor.key, anchor.cert, anchor.isCa, None, None))
    else Build(lib, spec, byId, index)
  }

  function Step(lib: Library, anchor: GeneratedCert, spec: Spec, s: Issued): Result<Issued, ChainError> {
    if spec.id in s.byId then Failure(DuplicateId)
    else
      var cert :- Issue(lib, anchor, spec, |s.inOrder|, s.byId);
      var safe := SafeFilename(spec.id);
      if safe.None? then Failure(UnsafeFileName)
      else Success(Issued(s.byId[spec.id := cert], s.inOrder + [cert],
                          s.files + [CertFile(|s.inOrder|, safe.value)]))
  }

  /** The state after the first `n` entries. */
  function After(lib: Library, anchor: GeneratedCert, specs: seq<Spec>, n: nat): Result<Issued, ChainError>
    requires n <= |specs|
  {
    if n == 0 then Success(Issued(map[], [], []))
    else
      var s :- After(lib, anchor, specs, n - 1);
      Step(lib, anchor, specs[n - 1], s)
  }

  function Generate(lib: Library, anchor: GeneratedCert, specs: seq<Spec>): Result<Issued, ChainError> {
    if specs == [] then Failure(EmptyChain) else After(lib, anchor, specs, |specs|)
  }

  method GenerateChain(lib: Library, anchor: GeneratedCert, specs: seq<Spec>) returns (r: Result<Issued, ChainError>)
    ensures r == Generate(lib, anchor, specs)
  {
    hide Build, ValidateAnchor, SafeFilename, CertFile;
    if specs == [] { return Failure(EmptyChain); }
    var byId: map<string, GeneratedCert> := map[];
    var inOrder: seq<GeneratedCert> := [];
    var files: seq<string> := [];
    for index := 0 to |specs|
      invariant After(lib, anchor, specs, index) == Success(Issued(byId, inOrder, files)) && |inOrder| == index
    {
      var spec := specs[index];
      ghost var next := After(lib, anchor, specs, index + 1);
      if spec.id in byId {
        FailureLasts(lib, anchor, specs, index + 1);
        return Failure(DuplicateId);
      }
      var cert: GeneratedCert;
      if index == 0 {
        var checked := ValidateAnchor(spec, Some(lib.subjectOf(anchor.cert)));
        if checked.Failure? { FailureLasts(lib, anchor, specs, index + 1); return Failure(checked.error); }
        cert := GeneratedCert(spec.id, anchor.key, anchor.cert, anchor.isCa, None, None);
      } else {
        var built := Build(lib, spec, byId, index);
        if built.Failure? { FailureLasts(lib, anchor, specs, index + 1); return Failure(built.error); }
        cert := built.value;
      }
      byId := byId[spec.id := cert];
      inOrder := inOrder + [cert];
      var safe := SafeFilename(spec.id);
      if safe.None? { FailureLasts(lib, anchor, specs, index + 1); return Failure(UnsafeFileName); }
      files := files + [CertFile(index, safe.value)];
    }
    r := Success(Issued(byId, inOrder, files));
  }

  /** A failed entry fails the run, with the same error. */
  lemma {:induction false} FailureLasts(lib: Library, anchor: GeneratedCert, specs: seq<Spec>, n: nat)
    requires n <= |specs| && After(lib, anchor, specs, n).Failure?
    ensures After(lib, anchor, specs, |specs|) == After(lib, anchor, specs, n)
    decreases |specs| - n
  {
    hide Step;
    if n < |specs| { FailureLasts(lib, anchor, specs, n + 1); }
  }

  lemma BuildKeepsId(lib: Library, spec: Spec, byId: map<string, GeneratedCert>, index: nat)
    requires Build(lib, spec, byId, index).Success?
    ensures Build(lib, spec, byId, index).value.certId == spec.id
  {
    hide Rewrite, CheckExtensions, ResolveIssuer;
  }
}
