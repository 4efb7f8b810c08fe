/** Object identifiers: `_base128`, `_encode_oid_der`, and a decoder to hold them against (section 8.19 of X.690). */
module Oid {
  import opened Bytes
  import opened Der

  /** Big-endian base-128 octets of `n`, every one with the continuation bit; none for zero. */
  function Continued(n: nat): bytes {
    if n == 0 then [] else Continued(n / 128) + [128 + n % 128]
  }

  /** One subidentifier. */
  function Subidentifier(n: nat): bytes {
    Continued(n / 128) + [n % 128]
  }

  function Subidentifiers(ids: seq<nat>): bytes {
    if ids == [] then [] else Subidentifier(ids[0]) + Subidentifiers(ids[1..])
  }

  /** The septets of `n`, most significant first. */
  function Septets(n: nat): seq<nat> {
    if n == 0 then [] else Septets(n / 128) + [n % 128]
  }

  /** `_base128`: collect septets from the low end, reverse, set the continuation bits. */
  method Base128(value: nat) returns (r: bytes)
    ensures r == Subidentifier(value)
  {
    if value == 0 { return [0]; }
    var septets: seq<nat>, rest := [], value;
    while rest > 0
      invariant Septets(value) == Septets(rest) + Reverse(septets)
    {
      ReverseSnoc(septets, rest % 128);
      assert Septets(rest) + Reverse(septets) == Septets(rest / 128) + ([rest % 128] + Reverse(septets));
      septets := septets + [rest % 128];
      rest := rest / 128;
    }
    assert Septets(rest) + Reverse(septets) == Reverse(septets);
    septets := Reverse(septets);
    MarkedSeptets(value);
    r := MarkContinued(septets);
  }

  /** `bytes([s | 0x80 for s in septets[:-1]] + [septets[-1]])`. */
  function MarkContinued(septets: seq<nat>): bytes
    requires septets != [] && forall i | 0 <= i < |septets| :: septets[i] < 128
  {
    if |septets| == 1 then [septets[0]] else [128 + septets[0]] + MarkContinued(septets[1..])
  }

  lemma MarkedSeptets(n: nat)
    requires n > 0
    ensures Septets(n) != [] && forall i | 0 <= i < |Septets(n)| :: Septets(n)[i] < 128
    ensures MarkContinued(Septets(n)) == Subidentifier(n)
  {
    SeptetsAreContinued(n);
    SeptetsAreContinued(n / 128);
    MarkedAt(Septets(n));
  }

  lemma {:induction false} MarkedAt(s: seq<nat>)
    requires s != [] && forall i | 0 <= i < |s| :: s[i] < 128
    ensures |MarkContinued(s)| == |s| && MarkContinued(s)[|s| - 1] == s[|s| - 1]
    ensures forall i | 0 <= i < |s| - 1 :: MarkContinued(s)[i] == 128 + s[i]
  {
    if |s| > 1 { MarkedAt(s[1..]); }
  }

  lemma {:induction false} SeptetsAreContinued(n: nat)
    ensures |Septets(n)| == |Continued(n)|
    ensures forall i | 0 <= i < |Septets(n)| :: Septets(n)[i] < 128 && Continued(n)[i] == 128 + Septets(n)[i]
    ensures n > 0 ==> Septets(n)[..|Septets(n)| - 1] == Septets(n / 128) && Septets(n)[|Septets(n)| - 1] == n % 128
  {
    if n > 0 { SeptetsAreContinued(n / 128); }
  }

  // ---- whole identifiers ----

  /** The arcs `_encode_oid_der` accepts. */
  predicate ValidArcs(arcs: seq<nat>) {
    |arcs| >= 2 && arcs[0] <= 2 && (arcs[0] < 2 ==> arcs[1] < 40)
  }

  function OidBody(arcs: seq<nat>): bytes
    requires ValidArcs(arcs)
  {
    Subidentifiers([40 * arcs[0] + arcs[1]] + arcs[2..])
  }

  datatype OidError = InvalidOid

  function EncodeOid(arcs: seq<nat>): Result<bytes, OidError> {
    if ValidArcs(arcs) then Success(DerString(0x06, OidBody(arcs))) else Failure(InvalidOid)
  }

  /** `_encode_oid_der`, from the parsed arcs on. */
  method EncodeOidDer(arcs: seq<nat>) returns (r: Result<bytes, OidError>)
    ensures r == EncodeOid(arcs)
  {
    if |arcs| < 2 || arcs[0] > 2 || (arcs[0] < 2 && arcs[1] >= 40) { return Failure(InvalidOid); }
    var body := Base128(40 * arcs[0] + arcs[1]);
    var tail := arcs[2..];
    for i := 0 to |tail|
      invariant body + Subidentifiers(tail[i..]) == OidBody(arcs)
    {
      var octets := Base128(tail[i]);
      assert tail[i..][1..] == tail[i + 1..];
      assert body + (octets + Subidentifiers(tail[i + 1..])) == body + octets + Subidentifiers(tail[i + 1..]);
      body := body + octets;
    }
    assert body + Subidentifiers(tail[|tail|..]) == body;
    return Success(DerString(0x06, body));
  }

  // ---- the decoder ----

  /** Reads one subidentifier, `acc` being the value of the octets already read. */
  function ReadSubidentifier(b: bytes, acc: nat): (r: Option<(nat, bytes)>)
    ensures r.Some? ==> |r.value.1| < |b|
  {
    if b == [] then None
    else if b[0] < 128 then Some((128 * acc + b[0], b[1..]))
    else ReadSubidentifier(b[1..], 128 * acc + (b[0] - 128))
  }

  /** A strict decoder: a subidentifier may not start with the padding octet 0x80. */
  function DecodeSubidentifiers(b: bytes): Option<seq<nat>>
    decreases |b|
  {
    if b == [] then Some([])
    else if b[0] == 0x80 then None
    else
      var (id, rest) :- ReadSubidentifier(b, 0);
      var ids :- DecodeSubidentifiers(rest);
      Some([id] + ids)
  }

  function DecodeOidBody(b: bytes): Option<seq<nat>> {
    var ids :- DecodeSubidentifiers(b);
    if ids == [] then None
    else if ids[0] < 40 then Some([0, ids[0]] + ids[1..])
    else if ids[0] < 80 then Some([1, ids[0] - 40] + ids[1..])
    else Some([2, ids[0] - 80] + ids[1..])
  }

  /** Every subidentifier has continuation bits on all octets but its last, and no padding in front. */
  lemma {:induction false} SubidentifierShape(n: nat)
    ensures var s := Subidentifier(n);
            && s[|s| - 1] < 128 && s[0] != 0x80
            && forall i | 0 <= i < |s| - 1 :: s[i] >= 128
  {
    if n >= 128 {
      var q := n / 128;
      SubidentifierShape(q);
      assert Continued(q) == Continued(q / 128) + [128 + q % 128];
      assert Subidentifier(q)[..|Continued(q / 128)|] == Continued(q / 128);
      if q < 128 { assert Continued(q / 128) == []; }
      else { assert Subidentifier(q)[0] == Continued(q / 128)[0] by { assert |Continued(q / 128)| > 0; } }
    }
  }

  lemma {:induction false} ReadContinued(n: nat, rest: bytes)
    ensures ReadSubidentifier(Continued(n) + rest, 0) == ReadSubidentifier(rest, n)
  {
    if n == 0 {
      assert Continued(n) + rest == rest;
    } else {
      var rest' := [128 + n % 128] + rest;
      assert Continued(n) + rest == Continued(n / 128) + rest';
      ReadContinued(n / 128, rest');
      assert rest'[1..] == rest;
    }
  }

  lemma {:induction false} ReadIsUnambiguous(b: bytes, acc: nat)
    requires ReadSubidentifier(b, acc).Some?
    requires acc > 0 || b[0] != 0x80
    ensures var (n, rest) := ReadSubidentifier(b, acc).value;
            Continued(acc) + b == Subidentifier(n) + rest
  {
    var (n, rest) := ReadSubidentifier(b, acc).value;
    if b[0] < 128 {
      assert n / 128 == acc && n % 128 == b[0];
      assert b == [b[0]] + rest;
    } else {
      var acc' := 128 * acc + (b[0] - 128);
      ReadIsUnambiguous(b[1..], acc');
      assert acc' / 128 == acc && acc' % 128 == b[0] - 128;
      assert Continued(acc') + b[1..] == Continued(acc) + ([b[0]] + b[1..]);
      assert [b[0]] + b[1..] == b;
    }
  }

  /** The strict decoder accepts exactly what the encoder writes, and returns what was written. */
  lemma {:induction false} SubidentifiersDecodeExactly(b: bytes, ids: seq<nat>)
    ensures DecodeSubidentifiers(b) == Some(ids) <==> b == Subidentifiers(ids)
    decreases |b| + |ids|
  {
    if b == Subidentifiers(ids) && ids != [] {
      var n, tail := ids[0], Subidentifiers(ids[1..]);
      SubidentifierShape(n);
      assert b[0] == Subidentifier(n)[0];
      assert b == Continued(n / 128) + ([n % 128] + tail);
      ReadContinued(n / 128, [n % 128] + tail);
      assert ([n % 128] + tail)[1..] == tail;
      SubidentifiersDecodeExactly(tail, ids[1..]);
      assert [n] + ids[1..] == ids;
    }
    if DecodeSubidentifiers(b) == Some(ids) && b != [] {
      var (n, rest) := ReadSubidentifier(b, 0).value;
      ReadIsUnambiguous(b, 0);
      assert Continued(0) + b == b;
      SubidentifiersDecodeExactly(rest, ids[1..]);
    }
  }

  /** Identifier bodies and valid arc lists are in one-to-one correspondence. */
  lemma OidBodyDecodesExactly(b: bytes, arcs: seq<nat>)
    ensures DecodeOidBody(b) == Some(arcs) <==> ValidArcs(arcs) && b == OidBody(arcs)
  {
    if ValidArcs(arcs) && b == OidBody(arcs) {
      var ids := [40 * arcs[0] + arcs[1]] + arcs[2..];
      SubidentifiersDecodeExactly(b, ids);
      assert ids[1..] == arcs[2..];
      assert arcs == [arcs[0], arcs[1]] + arcs[2..];
    }
    if DecodeOidBody(b) == Some(arcs) {
      var ids := DecodeSubidentifiers(b).value;
      SubidentifiersDecodeExactly(b, ids);
      assert arcs[2..] == ids[1..];
      assert ids == [40 * arcs[0] + arcs[1]] + arcs[2..];
    }
  }

  /** Encoding fails exactly on invalid arcs, and no two valid arc lists share an encoding. */
  lemma EncodeOidIsInjective(a: seq<nat>, b: seq<nat>)
    ensures EncodeOid(a).Success? <==> ValidArcs(a)
    ensures EncodeOid(a).Success? && EncodeOid(a) == EncodeOid(b) ==> a == b
  {
    if EncodeOid(a).Success? && EncodeOid(a) == EncodeOid(b) {
      DerStringInjective(0x06, OidBody(a), OidBody(b));
      OidBodyDecodesExactly(OidBody(a), a);
      OidBodyDecodesExactly(OidBody(b), b);
    }
  }

  /** The identifier of nameConstraints (2.5.29.30), and one with an arc of two octets (1.2.840). */
  lemma KnownIdentifiers()
    ensures EncodeOid([2, 5, 29, 30]) == Success([0x06, 3, 0x55, 0x1D, 0x1E])
    ensures EncodeOid([1, 2, 840]) == Success([0x06, 3, 0x2A, 0x86, 0x48])
  {
    assert [2, 5, 29, 30][2..] == [29, 30] && [1, 2, 840][2..] == [840];
    assert [40 * 2 + 5] + [29, 30] == [85, 29, 30] && [40 * 1 + 2] + [840] == [42, 840];
    hide Subidentifiers, DerString;
    ThreeOctets([85, 29, 30]);
    LongArc();
    SmallString([0x55, 0x1D, 0x1E]);
    SmallString([0x2A, 0x86, 0x48]);
  }

  lemma SmallString(body: bytes)
    requires |body| == 3
    ensures DerString(0x06, body) == [0x06, 3, body[0], body[1], body[2]]
  {
  }

  lemma ThreeOctets(ids: seq<nat>)
    requires |ids| == 3 && forall id <- ids :: id < 128
    ensures Subidentifiers(ids) == [ids[0], ids[1], ids[2]]
  {
    assert ids[1..][1..] == ids[2..] && ids[2..][1..] == [];
    assert ids[0] in ids && ids[1] in ids && ids[2] in ids;
    OneOctet(ids[0]);
    OneOctet(ids[1]);
    OneOctet(ids[2]);
    hide Subidentifier;
    assert Subidentifiers(ids[2..]) == [ids[2]] + [];
    assert Subidentifiers(ids[1..]) == [ids[1]] + [ids[2]];
  }

  lemma OneOctet(n: nat)
    requires n < 128
    ensures Subidentifier(n) == [n]
  {
    assert Continued(0) == [];
  }

  lemma LongArc()
    ensures Subidentifiers([42, 840]) == [0x2A, 0x86, 0x48]
  {
    OneOctet(42);
    assert Continued(6) == Continued(0) + [0x86] && Continued(0) == [];
    assert Subidentifier(840) == Continued(6) + [0x48];
    hide Subidentifier, Continued;
    assert [42, 840][1..] == [840] && [840][1..] == [];
    assert Subidentifiers([840]) == Subidentifier(840) + [];
  }
}
