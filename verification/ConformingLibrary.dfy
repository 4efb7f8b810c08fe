/** A certificate library that meets what module ChainTheorems assumes of one, told apart by names and by keys. */
module ConformingLibrary {
  import opened Bytes
  import opened Der
  import opened Certificates
  import opened SpliceProofs
  import opened Chain
  import opened ChainTheorems
  import Oid

  // ---- names as numbers ----

  function Items<T>(xs: seq<T>, f: T -> seq<nat>): seq<nat> {
    if xs == [] then [] else f(xs[0]) + Items(xs[1..], f)
  }

  /** A list as its length and its items. */
  function Counted<T>(xs: seq<T>, f: T -> seq<nat>): seq<nat> {
    [|xs|] + Items(xs, f)
  }

  function Number(n: nat): seq<nat> { [n] }

  function CharNumber(c: char): seq<nat> { [c as int] }

  function EncodingNumber(e: Option<nat>): nat {
    if e.Some? then e.value + 1 else 0
  }

  function AttributeNumbers(a: Attribute): seq<nat> {
    Counted(a.oid, Number) + (Counted(a.value, CharNumber) + [EncodingNumber(a.encoding)])
  }

  function RdnNumbers(r: Rdn): seq<nat> { Counted(r, AttributeNumbers) }

  function NameNumbers(n: Name): seq<nat> { Counted(n, RdnNumbers) }

  /** What follows an encoding does not matter for what is encoded. */
  ghost predicate PrefixFree<T(!new)>(f: T -> seq<nat>) {
    forall a, b, x: seq<nat>, y: seq<nat> :: f(a) + x == f(b) + y ==> a == b && x == y
  }

  lemma {:induction false} ItemsAreUnique<T(!new)>(xs: seq<T>, ys: seq<T>, f: T -> seq<nat>, x: seq<nat>, y: seq<nat>)
    requires PrefixFree(f) && |xs| == |ys| && Items(xs, f) + x == Items(ys, f) + y
    ensures xs == ys && x == y
  {
    if xs == [] {
      assert Items(xs, f) + x == x && Items(ys, f) + y == y;
    } else {
      var tail, tail' := Items(xs[1..], f) + x, Items(ys[1..], f) + y;
      assert f(xs[0]) + tail == Items(xs, f) + x && f(ys[0]) + tail' == Items(ys, f) + y;
      ItemsAreUnique(xs[1..], ys[1..], f, x, y);
      assert xs == [xs[0]] + xs[1..] && ys == [ys[0]] + ys[1..];
    }
  }

  lemma CountedIsPrefixFree<T(!new)>(f: T -> seq<nat>)
    requires PrefixFree(f)
    ensures forall xs, ys, x: seq<nat>, y: seq<nat> :: Counted(xs, f) + x == Counted(ys, f) + y ==> xs == ys && x == y
  {
    forall xs, ys, x: seq<nat>, y: seq<nat> | Counted(xs, f) + x == Counted(ys, f) + y ensures xs == ys && x == y {
      assert (Counted(xs, f) + x)[0] == |xs| && (Counted(ys, f) + y)[0] == |ys|;
      assert (Counted(xs, f) + x)[1..] == Items(xs, f) + x && (Counted(ys, f) + y)[1..] == Items(ys, f) + y;
      ItemsAreUnique(xs, ys, f, x, y);
    }
  }

  lemma SingleIsPrefixFree()
    ensures PrefixFree(Number) && PrefixFree(CharNumber)
  {
    forall a: nat, b: nat, x: seq<nat>, y: seq<nat> | Number(a) + x == Number(b) + y
      ensures a == b && x == y
    {
      assert (Number(a) + x)[0] == a && (Number(b) + y)[0] == b;
      assert (Number(a) + x)[1..] == x && (Number(b) + y)[1..] == y;
    }
    forall a: char, b: char, x: seq<nat>, y: seq<nat> | CharNumber(a) + x == CharNumber(b) + y
      ensures a == b && x == y
    {
      assert (CharNumber(a) + x)[0] == a as int && (CharNumber(b) + y)[0] == b as int;
      assert (CharNumber(a) + x)[1..] == x && (CharNumber(b) + y)[1..] == y;
    }
  }

  lemma AttributeIsPrefixFree()
    ensures PrefixFree(AttributeNumbers)
  {
    SingleIsPrefixFree();
    CountedIsPrefixFree(Number);
    CountedIsPrefixFree(CharNumber);
    forall a, b, x: seq<nat>, y: seq<nat> | AttributeNumbers(a) + x == AttributeNumbers(b) + y
      ensures a == b && x == y
    {
      AttributeIsUnique(a, b, x, y);
    }
  }

  lemma AttributeIsUnique(a: Attribute, b: Attribute, x: seq<nat>, y: seq<nat>)
    requires forall xs, ys, x: seq<nat>, y: seq<nat> ::
               Counted(xs, Number) + x == Counted(ys, Number) + y ==> xs == ys && x == y
    requires forall xs, ys, x: seq<nat>, y: seq<nat> ::
               Counted(xs, CharNumber) + x == Counted(ys, CharNumber) + y ==> xs == ys && x == y
    requires AttributeNumbers(a) + x == AttributeNumbers(b) + y
    ensures a == b && x == y
  {
    hide Counted;
    var e, e' := [EncodingNumber(a.encoding)] + x, [EncodingNumber(b.encoding)] + y;
    var v, v' := Counted(a.value, CharNumber) + e, Counted(b.value, CharNumber) + e';
    assert AttributeNumbers(a) + x == Counted(a.oid, Number) + v;
    assert AttributeNumbers(b) + y == Counted(b.oid, Number) + v';
    assert a.oid == b.oid && v == v';
    assert a.value == b.value && e == e';
    assert e[0] == e'[0] && e[1..] == x && e'[1..] == y;
  }

  lemma NamesAreUnique(a: Name, b: Name)
    requires NameNumbers(a) == NameNumbers(b)
    ensures a == b
  {
    AttributeIsPrefixFree();
    CountedIsPrefixFree(AttributeNumbers);
    assert PrefixFree(RdnNumbers);
    CountedIsPrefixFree(RdnNumbers);
    assert NameNumbers(a) + [] == NameNumbers(a) && NameNumbers(b) + [] == NameNumbers(b);
    assert Counted(a, RdnNumbers) + [] == Counted(b, RdnNumbers) + [];
  }

  // ---- the library ----

  function EncodeName(n: Name): bytes {
    DerString(SEQUENCE, Oid.Subidentifiers(NameNumbers(n)))
  }

  function KeyNumbers(k: Key): seq<nat> {
    match k
    case Ecdsa(scalar) => [0, scalar]
    case Rsa(modulus) => [1, modulus]
  }

  /** A signature that determines the key and the octets signed. */
  function SignWith(k: Key, x: bytes): bytes {
    Oid.Subidentifiers(KeyNumbers(k) + x)
  }

  /** A public key that determines the key. */
  function EncodeKey(k: Key): bytes {
    DerString(SEQUENCE, Oid.Subidentifiers(KeyNumbers(k)))
  }

  /** Extensions that tell the key and whether it is a CA's. */
  function EncodeProfile(p: Profile): bytes {
    DerString(EXTENSIONS_TAG, DerString(SEQUENCE, Oid.Subidentifiers([if p.isCa then 1 else 0] + KeyNumbers(p.key))))
  }

  function FieldsFor(r: Request): Tbs {
    var empty: bytes := [0x30, 0];
    Tbs(None, [0x02, 0], empty, EncodeName(r.issuer), empty, EncodeName(r.subject), EncodeKey(r.key), [],
        Some(EncodeProfile(Profile(r.key, r.isCa, r.authority, r.san, r.constraints, r.other))), [])
  }

  function CertificateFor(r: Request, k: Key): Certificate {
    Signed(FieldsFor(r), [0x30, 0], x => SignWith(k, x))
  }

  function BuildFor(r: Request, k: Key): bytes {
    var c := CertificateFor(r, k);
    Print(c.tbsTlv, c.sigAlg, c.signature)
  }

  ghost predicate HasSubject(der: bytes, n: Name) {
    ReadCertificate(der).Some? && ReadCertificate(der).value.tbs.subject == EncodeName(n)
  }

  ghost function SubjectIn(der: bytes): Name {
    if exists n :: HasSubject(der, n) then var n :| HasSubject(der, n); n else []
  }

  lemma {:induction false} SubidentifiersAreUnique(a: seq<nat>, b: seq<nat>)
    requires Oid.Subidentifiers(a) == Oid.Subidentifiers(b)
    ensures a == b
  {
    Oid.SubidentifiersDecodeExactly(Oid.Subidentifiers(a), a);
    Oid.SubidentifiersDecodeExactly(Oid.Subidentifiers(b), b);
  }

  lemma SignaturesAreUnique(k: Key, x: bytes, k': Key, x': bytes)
    requires SignWith(k, x) == SignWith(k', x')
    ensures k == k' && x == x'
  {
    var s: seq<nat>, s': seq<nat> := KeyNumbers(k) + x, KeyNumbers(k') + x';
    SubidentifiersAreUnique(s, s');
    assert s[0] == KeyNumbers(k)[0] && s'[0] == KeyNumbers(k')[0];
    assert s[1] == KeyNumbers(k)[1] && s'[1] == KeyNumbers(k')[1];
    assert s[2..] == x && s'[2..] == x';
  }

  lemma SmallFields()
    ensures IsTlv([0x30, 0]) && IsTlv([0x02, 0])
  {
  }

  /** Any field of a certificate the reader can represent is short itself. */
  lemma FieldsAreShort(r: Request, k: Key)
    requires IsShort(BuildFor(r, k))
    ensures var t := FieldsFor(r);
            && IsShort(t.issuer) && IsShort(t.subject) && IsShort(t.spki) && IsShort(t.extensions.value)
            && IsShort(TbsValue(t)) && IsShort(CertificateFor(r, k).tbsTlv) && IsShort(CertificateFor(r, k).signature)
  {
    hide EncodeName, EncodeKey, EncodeProfile, Pow256, SignWith;
  }

  lemma ProfileIsWrapped(p: Profile)
    requires IsShort(EncodeProfile(p))
    ensures WrapsOneSequence(EncodeProfile(p)) && EncodeProfile(p)[0] == EXTENSIONS_TAG
  {
    hide Pow256, TlvAt, Oid.Subidentifiers;
    var octets := Oid.Subidentifiers([if p.isCa then 1 else 0] + KeyNumbers(p.key));
    WrittenIsTlv(SEQUENCE, octets);
    WrittenIsTlv(EXTENSIONS_TAG, DerString(SEQUENCE, octets));
  }

  lemma BuiltReadsBack(r: Request, k: Key)
    requires IsShort(BuildFor(r, k))
    ensures ReadCertificate(BuildFor(r, k)) == Some(CertificateFor(r, k))
    ensures WrapsOneSequence(CertificateFor(r, k).tbs.extensions.value)
  {
    hide Pow256, TlvAt, ReadTbs, ReadCertificate, IsTlv, Oid.Subidentifiers, TbsValue, WrapsOneSequence, EncodeProfile;
    var c := CertificateFor(r, k);
    var t := c.tbs;
    SmallFields();
    FieldsAreShort(r, k);
    WrittenIsTlv(SEQUENCE, Oid.Subidentifiers(NameNumbers(r.subject)));
    WrittenIsTlv(SEQUENCE, Oid.Subidentifiers(NameNumbers(r.issuer)));
    WrittenIsTlv(SEQUENCE, Oid.Subidentifiers(KeyNumbers(r.key)));
    ProfileIsWrapped(Profile(r.key, r.isCa, r.authority, r.san, r.constraints, r.other));
    WrapperTlv(t.extensions.value);
    WrittenIsTlv(SEQUENCE, TbsValue(t));
    WrittenIsTlv(BIT_STRING, [0] + SignWith(k, c.tbsTlv));
    TbsReadsExactly(TbsValue(t), t);
    ShortIsRepresentable(c);
    PrintedReadsBack(c);
  }

  lemma WrapperTlv(w: bytes)
    requires WrapsOneSequence(w)
    ensures IsTlv(w)
  {
  }

  /**
   The assumption can be met, by a library that encodes different Names differently and whose signatures
   differ for different keys and for different octets.
  */
  lemma ConformingIsPossible() returns (lib: Library)
    ensures Conforming(lib)
    ensures forall a, b :: lib.name(a) == lib.name(b) ==> a == b
    ensures forall k, x, k', x' :: lib.sign(k, x) == lib.sign(k', x') ==> k == k' && x == x'
  {
    hide EncodeName, SignWith, CertificateFor, BuildFor, IsShort, ReadCertificate, WrapsOneSequence, SubjectIn;
    lib := Library(EncodeName, EncodeKey, EncodeProfile, BuildFor, d => SubjectIn(d), SignWith);
    forall r: Request, k: Key | IsShort(lib.build(r, k)) ensures BuildsAsAsked(lib, r, k, lib.build(r, k)) {
      BuiltAsAsked(lib, r, k);
    }
    forall a: Name, b: Name | lib.name(a) == lib.name(b) ensures a == b {
      EncodedNamesAreUnique(a, b);
    }
    forall k: Key, x: bytes, k': Key, x': bytes | lib.sign(k, x) == lib.sign(k', x') ensures k == k' && x == x' {
      SignaturesAreUnique(k, x, k', x');
    }
  }

  lemma EncodedNamesAreUnique(a: Name, b: Name)
    requires EncodeName(a) == EncodeName(b)
    ensures a == b
  {
    hide DerString, NameNumbers, Oid.Subidentifiers;
    DerStringInjective(SEQUENCE, Oid.Subidentifiers(NameNumbers(a)), Oid.Subidentifiers(NameNumbers(b)));
    SubidentifiersAreUnique(NameNumbers(a), NameNumbers(b));
    NamesAreUnique(a, b);
  }

  lemma BuiltAsAsked(lib: Library, r: Request, k: Key)
    requires lib == Library(EncodeName, EncodeKey, EncodeProfile, BuildFor, d => SubjectIn(d), SignWith)
    requires IsShort(lib.build(r, k))
    ensures BuildsAsAsked(lib, r, k, lib.build(r, k))
  {
    hide EncodeName, SignWith, BuildFor, IsShort, ReadCertificate, WrapsOneSequence, TbsValue, DerString;
    BuiltReadsBack(r, k);
    assert HasSubject(lib.build(r, k), r.subject);
    assert SignerFor(lib, k)(CertificateFor(r, k).tbsTlv) == SignWith(k, CertificateFor(r, k).tbsTlv);
  }
}
