/** When a chain is generated, with which error it is not, and what is in its certificates: told of the input alone. */
module Generation {
  import opened Bytes
  import opened Der
  import opened Certificates
  import opened Splice
  import opened SpliceProofs
  import opened SpliceTheorems
  import opened Chain
  import opened ChainTheorems
  import opened Files

  // ---- what an entry has to be ----

  predicate SelfIssued(spec: Spec) {
    spec.selfSignedFlag || spec.issuer == None || spec.issuer == Some("self")
  }

  /** A raw Name is one SEQUENCE. */
  predicate OneSequenceOrNone(raw: Option<bytes>) {
    raw.Some? ==> IsTlv(raw.value) && raw.value[0] == 0x30
  }

  /** Some character of the id is a letter, a digit or an underscore. */
  ghost predicate HasNameCharacter(id: string) {
    exists c <- id :: 'A' <= c <= 'Z' || 'a' <= c <= 'z' || '0' <= c <= '9' || c == '_'
  }

  /** RDN by RDN the same types and values, in any order and whatever the string types. */
  ghost predicate SameAttributes(a: Name, b: Name) {
    |a| == |b| && forall i | 0 <= i < |a| :: Includes(a[i], b[i]) && Includes(b[i], a[i])
  }

  ghost predicate Includes(a: Rdn, b: Rdn) {
    forall x <- b :: exists y <- a :: y.oid == x.oid && y.value == x.value
  }

  /** Whether entry `j` was made a CA; the first one is what the shared anchor is. */
  function IsCaAt(anchor: GeneratedCert, specs: seq<Spec>, j: nat): bool
    requires j < |specs|
  {
    if j == 0 then anchor.isCa else specs[j].isCa
  }

  /** Entry `i` names the earlier entry `j` as its issuer, and may. */
  predicate Issues(anchor: GeneratedCert, specs: seq<Spec>, i: nat, j: nat)
    requires i < |specs|
  {
    j < i && specs[i].issuer == Some(specs[j].id) && (IsCaAt(anchor, specs, j) || specs[i].allowNonCaIssuer)
  }

  ghost predicate IdIsNew(specs: seq<Spec>, i: nat)
    requires i < |specs|
  {
    forall j | 0 <= j < i :: specs[j].id != specs[i].id
  }

  ghost predicate IssuerFits(anchor: GeneratedCert, specs: seq<Spec>, i: nat)
    requires i < |specs|
  {
    && (specs[i].selfSignedFlag || specs[i].issuer.Some?)
    && (SelfIssued(specs[i]) || exists j: nat :: Issues(anchor, specs, i, j))
  }

  predicate ExtensionsFit(spec: Spec) {
    && (spec.subject != [] || spec.san != [])
    && (spec.constraints.Some? ==>
          spec.isCa && (spec.constraints.value.permitted != [] || spec.constraints.value.excluded != []))
    && !(spec.rawIssuer.Some? && spec.issuerSubject.Some?)
  }

  /** All that is asked of entry `i`, given that the entries before it were generated. */
  ghost predicate EntryFits(lib: Library, anchor: GeneratedCert, specs: seq<Spec>, i: nat)
    requires i < |specs|
  {
    var spec := specs[i];
    && IdIsNew(specs, i) && HasNameCharacter(spec.id)
    && if i == 0 then
         spec.isCa && SelfIssued(spec) && SameAttributes(spec.subject, lib.subjectOf(anchor.cert))
       else
         && IssuerFits(anchor, specs, i) && ExtensionsFit(spec)
         && OneSequenceOrNone(spec.rawSubject) && OneSequenceOrNone(spec.rawIssuer)
  }

  /** What the library can be asked for in this run has a length the reader can represent. */
  ghost predicate CandidatesShort(lib: Library, anchor: GeneratedCert, specs: seq<Spec>) {
    forall i, issuer | 1 <= i < |specs| && IsCandidate(lib, anchor, specs, i, issuer) ::
      IsShort(lib.build(RequestFor(lib, specs[i], issuer), IssuerKey(specs[i], issuer)))
  }

  ghost predicate IsCandidate(lib: Library, anchor: GeneratedCert, specs: seq<Spec>, i: nat, issuer: Option<GeneratedCert>)
    requires i < |specs|
  {
    After(lib, anchor, specs, i).Success? && (issuer.Some? ==> issuer.value in After(lib, anchor, specs, i).value.inOrder)
  }

  // ---- the checks, one by one ----

  lemma SameNameMeans(a: Name, b: Name)
    ensures SameName(a, b) <==> SameAttributes(a, b)
  {
    if |a| == |b| {
      forall i | 0 <= i < |a|
        ensures (set x <- a[i] :: (x.oid, x.value)) == (set x <- b[i] :: (x.oid, x.value))
                <==> Includes(a[i], b[i]) && Includes(b[i], a[i])
      {
        SamePairs(a[i], b[i]);
      }
    }
  }

  lemma SamePairs(a: Rdn, b: Rdn)
    ensures (set x <- a :: (x.oid, x.value)) == (set x <- b :: (x.oid, x.value)) <==> Includes(a, b) && Includes(b, a)
  {
    PairsWithin(a, b);
    PairsWithin(b, a);
  }

  lemma PairsWithin(a: Rdn, b: Rdn)
    ensures (set x <- b :: (x.oid, x.value)) <= (set x <- a :: (x.oid, x.value)) <==> Includes(a, b)
  {
    var s, t := set x <- a :: (x.oid, x.value), set x <- b :: (x.oid, x.value);
    if t <= s {
      forall x | x in b ensures exists y <- a :: y.oid == x.oid && y.value == x.value {
        assert (x.oid, x.value) in t;
      }
    }
    if Includes(a, b) {
      forall p | p in t ensures p in s {
        var x :| x in b && p == (x.oid, x.value);
        var y :| y in a && y.oid == x.oid && y.value == x.value;
        assert (y.oid, y.value) in s;
      }
    }
  }

  lemma SafeIdMeans(id: string)
    ensures SafeFilename(id).Some? <==> HasNameCharacter(id)
  {
    hide SafeFilename;
    SafeNamesAreSafe(id);
    assert forall c: char :: IsKept(c) <==> 'A' <= c <= 'Z' || 'a' <= c <= 'z' || '0' <= c <= '9' || c == '_';
  }

  lemma AnchorFits(lib: Library, anchor: GeneratedCert, spec: Spec)
    ensures ValidateAnchor(spec, Some(lib.subjectOf(anchor.cert))).Success?
            <==> spec.isCa && SelfIssued(spec) && SameAttributes(spec.subject, lib.subjectOf(anchor.cert))
  {
    hide SameName, SameAttributes;
    SameNameMeans(spec.subject, lib.subjectOf(anchor.cert));
  }

  lemma ExtensionsMean(spec: Spec)
    ensures CheckExtensions(spec).Success? <==> ExtensionsFit(spec)
  {
  }

  // ---- what the state after some entries holds ----

  lemma BuildKeeps(lib: Library, spec: Spec, byId: map<string, GeneratedCert>, index: nat)
    requires Build(lib, spec, byId, index).Success?
    ensures var g := Build(lib, spec, byId, index).value;
            g.isCa == spec.isCa && g.rawSubject == spec.rawSubject && g.key == spec.key
  {
    hide Rewrite, CheckExtensions, ResolveIssuer;
  }

  lemma HeldEntry(lib: Library, anchor: GeneratedCert, specs: seq<Spec>, n: nat, j: nat)
    requires j < n <= |specs| && After(lib, anchor, specs, n).Success?
    ensures var s := After(lib, anchor, specs, n).value;
            && |s.inOrder| == n && specs[j].id in s.byId && s.byId[specs[j].id] == s.inOrder[j]
            && s.inOrder[j].isCa == IsCaAt(anchor, specs, j)
            && s.inOrder[j].rawSubject == if j == 0 then None else specs[j].rawSubject
  {
    hide Build, ValidateAnchor, SafeFilename, Step;
    RunShape(lib, anchor, specs, n, j);
    if j > 0 { BuildKeeps(lib, specs[j], After(lib, anchor, specs, j).value.byId, j); }
  }

  lemma IdsHeld(lib: Library, anchor: GeneratedCert, specs: seq<Spec>, n: nat, id: string)
    requires n <= |specs| && After(lib, anchor, specs, n).Success?
    ensures id in After(lib, anchor, specs, n).value.byId <==> exists j :: 0 <= j < n && specs[j].id == id
  {
    hide Step, IsCaAt;
    if id in After(lib, anchor, specs, n).value.byId { var j := MapHoldsEntries(lib, anchor, specs, n, id); }
    if j :| 0 <= j < n && specs[j].id == id { HeldEntry(lib, anchor, specs, n, j); }
  }

  /** The issuer of entry `n`, as the earlier entries determine it. */
  lemma IssuerMeans(lib: Library, anchor: GeneratedCert, specs: seq<Spec>, n: nat)
    requires 1 <= n < |specs| && After(lib, anchor, specs, n).Success?
    requires forall i, j | 0 <= i < j < n :: specs[i].id != specs[j].id
    ensures var s := After(lib, anchor, specs, n).value;
            var r := ResolveIssuer(specs[n], s.byId, n);
            && (r.Success? <==> IssuerFits(anchor, specs, n))
            && (r.Success? ==> if SelfIssued(specs[n]) then r.value == None
                               else |s.inOrder| == n && exists j: nat ::
                                      Issues(anchor, specs, n, j) && r.value == Some(s.inOrder[j]))
  {
    hide Step, IsCaAt;
    var s, spec := After(lib, anchor, specs, n).value, specs[n];
    var r := ResolveIssuer(spec, s.byId, n);
    if !SelfIssued(spec) {
      IdsHeld(lib, anchor, specs, n, spec.issuer.value);
      if spec.issuer.value in s.byId {
        var j := MapHoldsEntries(lib, anchor, specs, n, spec.issuer.value);
        HeldEntry(lib, anchor, specs, n, j);
        assert Issues(anchor, specs, n, j) <==> IsCaAt(anchor, specs, j) || spec.allowNonCaIssuer;
        forall k: nat | Issues(anchor, specs, n, k) ensures k == j {
          assert specs[k].id == specs[j].id;
        }
      } else {
        forall k: nat ensures !Issues(anchor, specs, n, k) { }
      }
    }
  }

  /** Whether entry `n` is issued, given the entries before it. */
  lemma BuildMeans(lib: Library, anchor: GeneratedCert, specs: seq<Spec>, n: nat)
    requires Conforming(lib) && CandidatesShort(lib, anchor, specs)
    requires 1 <= n < |specs| && After(lib, anchor, specs, n).Success?
    requires forall i | 0 <= i < n :: EntryFits(lib, anchor, specs, i)
    ensures Build(lib, specs[n], After(lib, anchor, specs, n).value.byId, n).Success?
            <==> IssuerFits(anchor, specs, n) && ExtensionsFit(specs[n])
                 && OneSequenceOrNone(specs[n].rawSubject) && OneSequenceOrNone(specs[n].rawIssuer)
  {
    hide Rewrite, CheckExtensions, ResolveIssuer, IssuerFits, ExtensionsFit, HasNameCharacter, SameAttributes, IsTlv,
      Issues, RequestFor, IssuerKey, IsShort, BehindWrapper, After, WrapsOneSequence, FillsTheWrapper, ReadCertificate;
    var s, spec := After(lib, anchor, specs, n).value, specs[n];
    assert forall i, j | 0 <= i < j < n :: specs[i].id != specs[j].id by {
      forall i, j | 0 <= i < j < n ensures specs[i].id != specs[j].id { assert EntryFits(lib, anchor, specs, j); }
    }
    IssuerMeans(lib, anchor, specs, n);
    ExtensionsMean(spec);
    if ResolveIssuer(spec, s.byId, n).Success? && CheckExtensions(spec).Success? {
      var issuer := ResolveIssuer(spec, s.byId, n).value;
      InheritedIsValid(lib, anchor, specs, n, issuer);
      assert IsCandidate(lib, anchor, specs, n, issuer);
      BuildFailsOnNamesOnly(lib, spec, s.byId, n);
    }
  }

  /** A raw subject that is inherited was checked when its own entry was generated. */
  lemma InheritedIsValid(lib: Library, anchor: GeneratedCert, specs: seq<Spec>, n: nat, issuer: Option<GeneratedCert>)
    requires 1 <= n < |specs| && After(lib, anchor, specs, n).Success?
    requires forall i | 0 <= i < n :: EntryFits(lib, anchor, specs, i)
    requires var held := After(lib, anchor, specs, n).value.inOrder;
             issuer.Some? ==> |held| == n && exists j: nat :: Issues(anchor, specs, n, j) && issuer.value == held[j]
    ensures NamesValid(specs[n].rawSubject, RawIssuer(specs[n], issuer))
            <==> OneSequenceOrNone(specs[n].rawSubject) && OneSequenceOrNone(specs[n].rawIssuer)
    ensures IsCandidate(lib, anchor, specs, n, issuer)
  {
    hide IssuerFits, ExtensionsFit, HasNameCharacter, SameAttributes, IsTlv, After;
    if issuer.Some? {
      var j: nat :| Issues(anchor, specs, n, j) && issuer.value == After(lib, anchor, specs, n).value.inOrder[j];
      HeldEntry(lib, anchor, specs, n, j);
      assert EntryFits(lib, anchor, specs, j);
    }
  }

  lemma StepMeans(lib: Library, anchor: GeneratedCert, specs: seq<Spec>, n: nat)
    requires Conforming(lib) && CandidatesShort(lib, anchor, specs)
    requires n < |specs| && After(lib, anchor, specs, n).Success?
    requires forall i | 0 <= i < n :: EntryFits(lib, anchor, specs, i)
    ensures Step(lib, anchor, specs[n], After(lib, anchor, specs, n).value).Success? <==> EntryFits(lib, anchor, specs, n)
  {
    hide Build, ValidateAnchor, SafeFilename, IssuerFits, ExtensionsFit, HasNameCharacter, SameAttributes,
      OneSequenceOrNone, SelfIssued, After, CertFile;
    var s := After(lib, anchor, specs, n).value;
    IdsHeld(lib, anchor, specs, n, specs[n].id);
    SafeIdMeans(specs[n].id);
    RunLength(lib, anchor, specs, n);
    if n == 0 { AnchorFits(lib, anchor, specs[n]); } else { BuildMeans(lib, anchor, specs, n); }
  }

  lemma {:induction false} RunsThrough(lib: Library, anchor: GeneratedCert, specs: seq<Spec>, n: nat)
    requires Conforming(lib) && CandidatesShort(lib, anchor, specs) && n <= |specs|
    ensures After(lib, anchor, specs, n).Success? <==> forall i | 0 <= i < n :: EntryFits(lib, anchor, specs, i)
  {
    hide Step, EntryFits, CandidatesShort, Conforming;
    if n > 0 {
      RunsThrough(lib, anchor, specs, n - 1);
      if After(lib, anchor, specs, n - 1).Success? { StepMeans(lib, anchor, specs, n - 1); }
    }
  }

  /**
   When a chain is generated. A run succeeds if and only if it has entries and each of them fits: a new id with
   a character for a file name; the first a self-signed CA with the anchor's subject; every other self-signed
   or issued by an earlier CA, or an earlier non-CA where that is allowed; a subject or SANs; constraints on CAs
   only, and not empty; one choice of issuer Name; and raw Names that are one SEQUENCE.
  */
  lemma GenerationSucceeds(lib: Library, anchor: GeneratedCert, specs: seq<Spec>)
    requires Conforming(lib) && CandidatesShort(lib, anchor, specs)
    ensures Generate(lib, anchor, specs).Success?
            <==> specs != [] && forall i | 0 <= i < |specs| :: EntryFits(lib, anchor, specs, i)
  {
    hide EntryFits, CandidatesShort, Conforming;
    RunsThrough(lib, anchor, specs, |specs|);
  }

  /** The shared anchor can be built exactly from a self-signed CA whose own fields fit. */
  lemma AnchorSucceeds(lib: Library, root: Spec)
    requires Conforming(lib) && IsShort(lib.build(RequestFor(lib, root, None), root.key))
    ensures SharedAnchor(lib, root).Success?
            <==> root.isCa && SelfIssued(root) && ExtensionsFit(root)
                 && OneSequenceOrNone(root.rawSubject) && OneSequenceOrNone(root.rawIssuer)
  {
    hide Rewrite, CheckExtensions, ExtensionsFit, IsTlv, RequestFor, IsShort, BehindWrapper, WrapsOneSequence,
      FillsTheWrapper, ReadCertificate;
    ExtensionsMean(root);
    if ResolveIssuer(root, map[], 0).Success? && CheckExtensions(root).Success? && SelfIssued(root) {
      BuildFailsOnNamesOnly(lib, root, map[], 0);
    }
  }

  // ---- errors ----

  /** What each error says of the entry it is reported for. */
  ghost predicate HasFault(lib: Library, anchor: GeneratedCert, specs: seq<Spec>, i: nat, e: ChainError)
    requires i < |specs|
  {
    var spec := specs[i];
    match e
    case EmptyChain => false
    case AnchorNotCa => i == 0 && !spec.isCa
    case AnchorNotSelfSigned => i == 0 && !SelfIssued(spec)
    case AnchorSubjectMismatch => i == 0 && !SameAttributes(spec.subject, lib.subjectOf(anchor.cert))
    case DuplicateId => !IdIsNew(specs, i)
    case IssuerMissing => i > 0 && !spec.selfSignedFlag && spec.issuer == None
    case IssuerUnknown => i > 0 && !SelfIssued(spec) && forall j | 0 <= j < i :: spec.issuer != Some(specs[j].id)
    case IssuerNotCa =>
      i > 0 && !spec.allowNonCaIssuer && exists j: nat :: IsNonCaIssuer(anchor, specs, i, j)
    case EmptySubjectWithoutSan => i > 0 && spec.subject == [] && spec.san == []
    case ConstraintsOnNonCa => i > 0 && spec.constraints.Some? && !spec.isCa
    case ConstraintsEmpty =>
      i > 0 && spec.constraints.Some? && spec.constraints.value.permitted == [] && spec.constraints.value.excluded == []
    case IssuerChosenTwice => i > 0 && spec.rawIssuer.Some? && spec.issuerSubject.Some?
    case UnsafeFileName => !HasNameCharacter(spec.id)
    case RewriteFailed(_) => i > 0 && !(OneSequenceOrNone(spec.rawSubject) && OneSequenceOrNone(spec.rawIssuer))
  }

  predicate IsNonCaIssuer(anchor: GeneratedCert, specs: seq<Spec>, i: nat, j: nat)
    requires i < |specs|
  {
    j < i && specs[i].issuer == Some(specs[j].id) && !IsCaAt(anchor, specs, j)
  }

  lemma ResolveFaults(lib: Library, anchor: GeneratedCert, specs: seq<Spec>, n: nat)
    requires 1 <= n < |specs| && After(lib, anchor, specs, n).Success?
    ensures var r := ResolveIssuer(specs[n], After(lib, anchor, specs, n).value.byId, n);
            r.Failure? ==> HasFault(lib, anchor, specs, n, r.error)
  {
    hide Step, IsCaAt, SameAttributes, HasNameCharacter, IsTlv, After;
    var s, spec := After(lib, anchor, specs, n).value, specs[n];
    if !SelfIssued(spec) {
      IdsHeld(lib, anchor, specs, n, spec.issuer.value);
      if spec.issuer.value in s.byId {
        var j := MapHoldsEntries(lib, anchor, specs, n, spec.issuer.value);
        HeldEntry(lib, anchor, specs, n, j);
        assert !IsCaAt(anchor, specs, j) ==> IsNonCaIssuer(anchor, specs, n, j);
      }
    }
  }

  lemma BuildFaults(lib: Library, anchor: GeneratedCert, specs: seq<Spec>, n: nat)
    requires Conforming(lib) && CandidatesShort(lib, anchor, specs)
    requires 1 <= n < |specs| && After(lib, anchor, specs, n).Success?
    requires forall i | 0 <= i < n :: EntryFits(lib, anchor, specs, i)
    ensures var r := Build(lib, specs[n], After(lib, anchor, specs, n).value.byId, n);
            r.Failure? ==> HasFault(lib, anchor, specs, n, r.error)
  {
    hide Rewrite, ResolveIssuer, IssuerFits, HasNameCharacter, SameAttributes, IsTlv, OneSequenceOrNone, SelfIssued,
      RequestFor, IssuerKey, After, EntryFits, CandidatesShort, Conforming, RawIssuer;
    BuildMeans(lib, anchor, specs, n);
    ResolveFaults(lib, anchor, specs, n);
    var s, spec := After(lib, anchor, specs, n).value, specs[n];
    ResolvesOrNot(lib, anchor, specs, n);
  }

  lemma ResolvesOrNot(lib: Library, anchor: GeneratedCert, specs: seq<Spec>, n: nat)
    requires 1 <= n < |specs| && After(lib, anchor, specs, n).Success?
    requires forall i | 0 <= i < n :: EntryFits(lib, anchor, specs, i)
    ensures ResolveIssuer(specs[n], After(lib, anchor, specs, n).value.byId, n).Success? <==> IssuerFits(anchor, specs, n)
  {
    hide ResolveIssuer, IssuerFits, HasNameCharacter, SameAttributes, After;
    forall i, j | 0 <= i < j < n ensures specs[i].id != specs[j].id { assert EntryFits(lib, anchor, specs, j); }
    IssuerMeans(lib, anchor, specs, n);
  }

  lemma StepFaults(lib: Library, anchor: GeneratedCert, specs: seq<Spec>, n: nat)
    requires Conforming(lib) && CandidatesShort(lib, anchor, specs)
    requires n < |specs| && After(lib, anchor, specs, n).Success?
    requires forall i | 0 <= i < n :: EntryFits(lib, anchor, specs, i)
    ensures var r := Step(lib, anchor, specs[n], After(lib, anchor, specs, n).value);
            r.Failure? ==> HasFault(lib, anchor, specs, n, r.error)
  {
    hide Build, SafeFilename, HasNameCharacter, SameAttributes, SameName, EntryFits, OneSequenceOrNone, After, CertFile;
    IdsHeld(lib, anchor, specs, n, specs[n].id);
    SafeIdMeans(specs[n].id);
    RunLength(lib, anchor, specs, n);
    if n == 0 {
      SameNameMeans(specs[n].subject, lib.subjectOf(anchor.cert));
    } else {
      BuildFaults(lib, anchor, specs, n);
    }
  }

  /** A run that fails does so at its first entry that does not fit, with a fault of that entry. */
  lemma GenerationFails(lib: Library, anchor: GeneratedCert, specs: seq<Spec>) returns (i: nat)
    requires Conforming(lib) && CandidatesShort(lib, anchor, specs) && Generate(lib, anchor, specs).Failure?
    ensures specs == [] ==> Generate(lib, anchor, specs) == Failure(EmptyChain)
    ensures specs != [] ==> i < |specs| && !EntryFits(lib, anchor, specs, i)
                            && (forall j | 0 <= j < i :: EntryFits(lib, anchor, specs, j))
                            && HasFault(lib, anchor, specs, i, Generate(lib, anchor, specs).error)
  {
    hide EntryFits, CandidatesShort, Conforming, Step, HasFault;
    i := 0;
    if specs != [] { i := FirstFailure(lib, anchor, specs, |specs|); }
  }

  lemma {:induction false} FirstFailure(lib: Library, anchor: GeneratedCert, specs: seq<Spec>, n: nat) returns (i: nat)
    requires Conforming(lib) && CandidatesShort(lib, anchor, specs)
    requires n <= |specs| && After(lib, anchor, specs, n).Failure?
    ensures i < n && !EntryFits(lib, anchor, specs, i) && (forall j | 0 <= j < i :: EntryFits(lib, anchor, specs, j))
    ensures HasFault(lib, anchor, specs, i, After(lib, anchor, specs, n).error)
  {
    hide EntryFits, CandidatesShort, Conforming, Step, HasFault;
    if After(lib, anchor, specs, n - 1).Failure? {
      i := FirstFailure(lib, anchor, specs, n - 1);
    } else {
      i := n - 1;
      RunsThrough(lib, anchor, specs, n - 1);
      StepMeans(lib, anchor, specs, n - 1);
      StepFaults(lib, anchor, specs, n - 1);
    }
  }

  // ---- what is in the certificates ----

  /** The issuer octets of entry `i`. */
  ghost predicate CarriesIssuer(lib: Library, anchor: GeneratedCert, specs: seq<Spec>, i: nat, c: Certificate)
    requires 1 <= i < |specs| && Generate(lib, anchor, specs).Success?
    requires |Generate(lib, anchor, specs).value.inOrder| == |specs|
  {
    var spec := specs[i];
    if spec.rawIssuer.Some? then c.tbs.issuer == spec.rawIssuer.value
    else if SelfIssued(spec) then c.tbs.issuer == lib.name(spec.subject)
    else if spec.issuerSubject.Some? then c.tbs.issuer == lib.name(spec.issuerSubject.value)
    else
      exists j: nat :: Issues(anchor, specs, i, j) && EmittedSubject(lib, anchor, specs, j) == Some(c.tbs.issuer)
  }

  ghost function EmittedSubject(lib: Library, anchor: GeneratedCert, specs: seq<Spec>, j: nat): Option<bytes>
    requires j < |specs| && Generate(lib, anchor, specs).Success?
    requires |Generate(lib, anchor, specs).value.inOrder| == |specs|
  {
    var c :- ReadCertificate(Generate(lib, anchor, specs).value.inOrder[j].Emitted());
    Some(c.tbs.subject)
  }

  /** Key, CA flag, subject, public key and extensions of entry `i`. */
  ghost predicate CarriesFields(lib: Library, specs: seq<Spec>, s: Issued, i: nat, c: Certificate)
    requires i < |specs| == |s.inOrder|
  {
    var spec, g := specs[i], s.inOrder[i];
    && (SelfIssued(spec) <==> Parent(specs, i).None?)
    && g.key == spec.key && g.isCa == spec.isCa
    && c.tbs.subject == (if spec.rawSubject.Some? then spec.rawSubject.value else lib.name(spec.subject))
    && c.tbs.spki == lib.publicKey(spec.key)
    && CarriesExtensions(lib, spec, if SelfIssued(spec) then None else Some(s.inOrder[Parent(specs, i).value].key), c)
  }

  /**
   A certificate in full. Entry `i` goes to disk with the issuer its input determines, its raw or encoded
   subject, its own public key, and the extensions of its key, CA flag, issuer's key, SANs and constraints
   followed by its raw ones.
  */
  lemma EmittedCertificate(lib: Library, root: Spec, anchor: GeneratedCert, specs: seq<Spec>, i: nat)
    requires Conforming(lib) && IsSharedAnchor(lib, root, anchor) && Generate(lib, anchor, specs).Success?
    requires AllShort(Generate(lib, anchor, specs).value) && 1 <= i < |specs|
    ensures |Generate(lib, anchor, specs).value.inOrder| == |specs|
    ensures var c := ReadCertificate(Generate(lib, anchor, specs).value.inOrder[i].Emitted());
            && c.Some? && CarriesIssuer(lib, anchor, specs, i, c.value)
            && CarriesFields(lib, specs, Generate(lib, anchor, specs).value, i, c.value)
  {
    hide *;
    IssuerCarried(lib, root, anchor, specs, i);
    FieldsCarried(lib, anchor, specs, i);
  }

  lemma FieldsCarried(lib: Library, anchor: GeneratedCert, specs: seq<Spec>, i: nat)
    requires Conforming(lib) && Generate(lib, anchor, specs).Success?
    requires AllShort(Generate(lib, anchor, specs).value) && 1 <= i < |specs|
    ensures |Generate(lib, anchor, specs).value.inOrder| == |specs|
    ensures var c := ReadCertificate(Generate(lib, anchor, specs).value.inOrder[i].Emitted());
            c.Some? && CarriesFields(lib, specs, Generate(lib, anchor, specs).value, i, c.value)
  {
    hide ReadCertificate, Build, ResolveIssuer, IsShort, Generate, After, CarriesExtensions, IssuerName, SignatureTlv,
      Conforming;
    IssuerResolves(lib, anchor, specs, i);
    var s, spec, byId := Generate(lib, anchor, specs).value, specs[i], After(lib, anchor, specs, i).value.byId;
    assert s.inOrder[i] in s.inOrder;
    EmittedFields(lib, spec, byId, i);
    EmittedProfile(lib, spec, byId, i);
  }

  /** The extensions the library wrote for the entry, and the raw ones behind them. */
  ghost predicate CarriesExtensions(lib: Library, spec: Spec, authority: Option<Key>, c: Certificate) {
    var typed := lib.extensions(Profile(spec.key, spec.isCa, authority, spec.san, spec.constraints, spec.other));
    && c.tbs.extensions.Some? && ExtensionOctets(typed).Some?
    && ExtensionOctets(c.tbs.extensions.value) == Some(ExtensionOctets(typed).value + Join(spec.rawExtensions))
  }

  /** Public key and extensions of one certificate. */
  lemma EmittedProfile(lib: Library, spec: Spec, byId: map<string, GeneratedCert>, index: nat)
    requires Conforming(lib) && Build(lib, spec, byId, index).Success?
    requires IsShort(Build(lib, spec, byId, index).value.cert) && IsShort(Build(lib, spec, byId, index).value.Emitted())
    ensures ResolveIssuer(spec, byId, index).Success?
    ensures var g, issuer := Build(lib, spec, byId, index).value, ResolveIssuer(spec, byId, index).value;
            var c := ReadCertificate(g.Emitted());
            && c.Some? && c.value.tbs.spki == lib.publicKey(spec.key)
            && CarriesExtensions(lib, spec, if issuer.None? then None else Some(issuer.value.key), c.value)
    ensures var g, issuer := Build(lib, spec, byId, index).value, ResolveIssuer(spec, byId, index).value;
            spec.rawSubject == None && spec.rawExtensions == [] && RawIssuer(spec, issuer) == None ==> g.Emitted() == g.cert
  {
    hide TlvAt, ReadCertificate, ReadTbs, Rewrite, TbsValue, IsTlv, ExtensionOctets, CheckExtensions, DerString, Pow256,
      WrapsOneSequence, BehindList, ExtendedWrapper;
    var issuer := ResolveIssuer(spec, byId, index).value;
    var key, request, raw := IssuerKey(spec, issuer), RequestFor(lib, spec, issuer), RawIssuer(spec, issuer);
    var cert := lib.build(request, key);
    assert BuildsAsAsked(lib, request, key, cert);
    var c, g := ReadCertificate(cert).value, Build(lib, spec, byId, index).value;
    CertificateReadsExactly(cert, c);
    TbsReadsExactly(Value(c.tbsTlv), c.tbs);
    ExtensionsTlv(c.tbs);
    OneSequence(c.tbs.extensions.value);
    if g.rawDer.Some? {
      var sign := SignerFor(lib, key);
      RewriteRefuses(cert, c, spec.rawSubject, raw, spec.rawExtensions, sign);
      SpliceCorrect(cert, c, spec.rawSubject, raw, spec.rawExtensions, sign);
      RewriteComputes(cert, c, spec.rawSubject, raw, spec.rawExtensions, sign);
      var edited := Signed(Edited(c.tbs, spec.rawSubject, raw, spec.rawExtensions), c.sigAlg, sign);
      ShortIsRepresentable(edited);
      ShortValue(edited.tbs, c.sigAlg, sign);
      EditedIsValid(c.tbs, spec.rawSubject, raw, spec.rawExtensions);
    }
    var octets := ExtensionOctets(c.tbs.extensions.value).value;
    if spec.rawExtensions == [] { assert octets + Join([]) == octets; }
  }

  lemma ShortValue(t: Tbs, sigAlg: bytes, sign: Signer)
    requires Representable(Signed(t, sigAlg, sign))
    ensures |TbsValue(t)| < Pow256(127)
  {
    hide TbsValue, Pow256;
  }

  lemma ExtensionsTlv(t: Tbs)
    requires ValidTbs(t) && t.extensions.Some?
    ensures IsTlv(t.extensions.value)
  {
  }

  lemma IssuerCarried(lib: Library, root: Spec, anchor: GeneratedCert, specs: seq<Spec>, i: nat)
    requires Conforming(lib) && IsSharedAnchor(lib, root, anchor) && Generate(lib, anchor, specs).Success?
    requires AllShort(Generate(lib, anchor, specs).value) && 1 <= i < |specs|
    ensures |Generate(lib, anchor, specs).value.inOrder| == |specs|
    ensures var c := ReadCertificate(Generate(lib, anchor, specs).value.inOrder[i].Emitted());
            c.Some? && CarriesIssuer(lib, anchor, specs, i, c.value)
  {
    hide TlvAt, ReadCertificate, Rewrite, Build, ResolveIssuer, Step, Pow256, IsShort, SignatureTlv;
    IssuerResolves(lib, anchor, specs, i);
    var s, spec := Generate(lib, anchor, specs).value, specs[i];
    assert s.inOrder[i] in s.inOrder;
    EmittedFields(lib, spec, After(lib, anchor, specs, i).value.byId, i);
    if !SelfIssued(spec) && spec.issuerSubject.None? && spec.rawIssuer.None? {
      NamesLink(lib, root, anchor, specs, i);
      var j := Parent(specs, i).value;
      HeldEntry(lib, anchor, specs, |specs|, j);
      assert Issues(anchor, specs, i, j);
    }
  }
}
