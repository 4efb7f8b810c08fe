/** The scalar arithmetic of `deterministic_ec_key`: how evenly hash outputs spread over private keys. */
module Scalar {
  import opened Bytes

  datatype Curve = P256 | P384 | P521 {
    /** The order in the generator's table. */
    function Order(): (n: nat)
      ensures n > 1
    {
      match this
      case P256 => 0xFFFFFFFF00000000FFFFFFFFFFFFFFFFBCE6FAADA7179E84F3B9CAC2FC632551
      case P384 => 0xFFFFFFFFFFFFFFFFFFFFFFFFFFFFFFFFFFFFFFFFFFFFFFFFC7634D81F4372DDF581A0DB248B0A77AECEC196ACCC52973
      case P521 => 0x01FFFFFFFFFFFFFFFFFFFFFFFFFFFFFFFFFFFFFFFFFFFFFFFFFFFFFFFFFFFFFFFA51868783BF2F966B7FCC0148F709A5D03BB5C9B8899C47AEBB6FB71E91386409
    }

    /** The order of the group itself (SEC 2, version 2.0); the table's P-521 entry lacks eight bits of it. */
    function GroupOrder(): nat {
      match this
      case P256 => 0xFFFFFFFF_00000000_FFFFFFFF_FFFFFFFF_BCE6FAAD_A7179E84_F3B9CAC2_FC632551
      case P384 => 0xFFFFFFFF_FFFFFFFF_FFFFFFFF_FFFFFFFF_FFFFFFFF_FFFFFFFF_C7634D81_F4372DDF_581A0DB2_48B0A77A_ECEC196A_CCC52973
      case P521 => 0x1FFFFFFFFFFFFFFFFFFFFFFFFFFFFFFFFFFFFFFFFFFFFFFFFFFFFFFFFFFFFFFFFFA51868783BF2F966B7FCC0148F709A5D03BB5C9B8899C47AEBB6FB71E91386409
    }

    function KeySize(): nat {
      match this
      case P256 => 256
      case P384 => 384
      case P521 => 521
    }

    /** Octets of hash output taken. */
    function HashOctets(): nat {
      (KeySize() + 64 + 7) / 8
    }
  }

  function ScalarFrom(curve: Curve, x: nat): nat {
    x % (curve.Order() - 1) + 1
  }

  /** The scalar for a hash output. */
  function ScalarOf(curve: Curve, raw: bytes): nat {
    ScalarFrom(curve, FromBigEndian(raw))
  }

  // ---- hash outputs as numbers ----

  /** The octets of `x`, padded in front to `n` octets. */
  function Padded(x: nat, n: nat): bytes {
    if n == 0 then [] else Padded(x / 256, n - 1) + [x % 256]
  }

  /** Octet strings of length `n` and numbers below 256^n are in one-to-one correspondence. */
  lemma {:induction false} PaddedReadsBack(x: nat, n: nat)
    requires x < Pow256(n)
    ensures |Padded(x, n)| == n && FromBigEndian(Padded(x, n)) == x
  {
    if n > 0 {
      PaddedReadsBack(x / 256, n - 1);
      assert Padded(x, n)[..n - 1] == Padded(x / 256, n - 1);
    }
  }

  lemma {:induction false} PaddedIsOnly(s: bytes)
    ensures Padded(FromBigEndian(s), |s|) == s
  {
    if s != [] {
      PaddedIsOnly(s[..|s| - 1]);
      assert s == s[..|s| - 1] + [s[|s| - 1]];
    }
  }

  // ---- counting residues ----

  /** The numbers below `total` with remainder `r`. */
  function Residues(total: nat, m: nat, r: nat): set<nat>
    requires m > 0
  {
    set x: nat | x < total && x % m == r
  }

  lemma DivModStep(n: nat, m: nat)
    requires m > 0
    ensures if n % m == m - 1 then (n + 1) / m == n / m + 1 && (n + 1) % m == 0
            else (n + 1) / m == n / m && (n + 1) % m == n % m + 1
  {
    var q, r := n / m, n % m;
    assert n == m * q + r;
    if r == m - 1 {
      assert n + 1 == m * (q + 1);
      DivModUnique(n + 1, m, q + 1, 0);
    } else {
      DivModUnique(n + 1, m, q, r + 1);
    }
  }

  lemma MultipleIsFar(m: int, d: int)
    requires m > 0
    ensures d == 0 || m * d >= m || m * d <= -m
  {
  }

  lemma DivModUnique(n: nat, m: nat, q: nat, r: nat)
    requires m > 0 && r < m && n == m * q + r
    ensures n / m == q && n % m == r
  {
    var q', r' := n / m, n % m;
    assert n == m * q' + r';
    MultipleIsFar(m, q - q');
    assert m * (q - q') == m * q - m * q';
  }

  /** Every remainder has `total / m` preimages below `total`, and one more if it is below `total % m`. */
  lemma {:induction false} CountResidues(total: nat, m: nat, r: nat)
    requires m > 0 && r < m
    ensures |Residues(total, m, r)| == total / m + if r < total % m then 1 else 0
  {
    if total == 0 {
      assert Residues(0, m, r) == {};
      DivModUnique(0, m, 0, 0);
    } else {
      var n := total - 1;
      CountResidues(n, m, r);
      DivModStep(n, m);
      if n % m == r {
        assert Residues(total, m, r) == Residues(n, m, r) + {n};
      } else {
        assert Residues(total, m, r) == Residues(n, m, r);
      }
    }
  }

  // ---- the bias bound ----

  /** The hash outputs, as numbers, that give scalar `s`. */
  function Preimages(curve: Curve, s: nat): set<nat> {
    set x: nat | x < Pow256(curve.HashOctets()) && ScalarFrom(curve, x) == s
  }

  lemma CurveSizes(curve: Curve)
    ensures curve.HashOctets() == (match curve case P256 => 40 case P384 => 56 case P521 => 74)
    ensures curve.Order() - 1 < Pow256(curve.HashOctets() - 8)
  {
    hide Pow256;
    EightOctets();
    Pow256Adds(8, 8);
    assert Pow256(16) == 0x100000000000000000000000000000000;
    Pow256Adds(16, 16);
    assert Pow256(32) == 0x10000000000000000000000000000000000000000000000000000000000000000;
    match curve
    case P256 =>
    case P384 =>
      Pow256Adds(32, 16);
      assert Pow256(48) == 0x1000000000000000000000000000000000000000000000000000000000000000000000000000000000000000000000000;
    case P521 =>
      Pow256Adds(32, 32);
      Pow256Adds(64, 2);
      assert Pow256(66) == 0x1000000000000000000000000000000000000000000000000000000000000000000000000000000000000000000000000000000000000000000000000000000000000;
  }

  lemma {:induction false} Pow256Adds(a: nat, b: nat)
    ensures Pow256(a + b) == Pow256(a) * Pow256(b)
  {
    if a > 0 {
      Pow256Adds(a - 1, b);
      ScaleProduct(256, Pow256(a - 1), Pow256(b));
    }
  }

  /**
   Bias bound. For each supported curve with table order n, every scalar in [1, n-1] comes from q or q+1 of the
   hash outputs, where q = floor(256^octets / (n-1)) is at least 2^64, and no output gives anything else.
  */
  lemma ScalarBias(curve: Curve, s: nat)
    requires 1 <= s < curve.Order()
    ensures var q := Pow256(curve.HashOctets()) / (curve.Order() - 1);
            && q >= 0x1_0000_0000_0000_0000
            && (|Preimages(curve, s)| == q || |Preimages(curve, s)| == q + 1)
  {
    CurveSizes(curve);
    hide Pow256;
    var m, total := curve.Order() - 1, Pow256(curve.HashOctets());
    CountResidues(total, m, s - 1);
    assert Preimages(curve, s) == Residues(total, m, s - 1);
    QuotientIsLarge(curve);
  }

  /**
   Coverage. Every scalar of the group can be drawn exactly on the curves whose table entry is the group
   order, which P-521's is not: no hash output gives any of its scalars from the table entry upwards.
  */
  lemma ScalarCoverage(curve: Curve)
    ensures (forall s | 1 <= s < curve.GroupOrder() :: Preimages(curve, s) != {}) <==> curve != P521
    ensures forall s | curve.Order() <= s :: Preimages(curve, s) == {}
    ensures curve.Order() <= curve.GroupOrder() && (curve.Order() == curve.GroupOrder() <==> curve != P521)
    ensures curve == P521 ==> curve.GroupOrder() - curve.Order() > 255 * (curve.Order() - 1)
    ensures curve == P521 ==> curve.GroupOrder() - curve.Order() == 0x1FE00000000000000000000000000000000000000000000000000000000000000000000000000000000000000000000000000000000000000000000000000000000
  {
    forall s | curve.Order() <= s ensures Preimages(curve, s) == {} {
      ScalarsStayBelow(curve, s);
    }
    forall s | 1 <= s < curve.Order() ensures Preimages(curve, s) != {} {
      ScalarBias(curve, s);
    }
    if curve == P521 {
      var s := curve.Order();
      assert 1 <= s < curve.GroupOrder() && Preimages(curve, s) == {};
    }
  }

  lemma ScalarsStayBelow(curve: Curve, s: nat)
    requires curve.Order() <= s
    ensures Preimages(curve, s) == {}
  {
    hide Pow256;
    assert forall x: nat :: ScalarFrom(curve, x) < curve.Order();
  }

  lemma QuotientIsLarge(curve: Curve)
    ensures Pow256(curve.HashOctets()) / (curve.Order() - 1) >= 0x1_0000_0000_0000_0000
  {
    CurveSizes(curve);
    var k, m := curve.HashOctets() - 8, curve.Order() - 1;
    Pow256Adds(8, k);
    EightOctets();
    QuotientBound(m, Pow256(k), Pow256(8));
  }

  lemma EightOctets()
    ensures Pow256(8) == 0x1_0000_0000_0000_0000 && Pow256(2) == 0x1_0000
  {
  }

  lemma QuotientBound(m: nat, p: nat, c: nat)
    requires 0 < m < p
    ensures (c * p) / m >= c
  {
    var q, r := (c * p) / m, (c * p) % m;
    assert c * p == m * q + r;
    ProductGrows(c, m, p);
    QuotientBelow(m, q, c);
  }

  lemma ProductGrows(c: nat, m: nat, p: nat)
    requires m <= p
    ensures c * m <= c * p
  {
  }

  /** A quotient below `c` leaves the product a whole `m` below `m * c`. */
  lemma QuotientBelow(m: nat, q: nat, c: nat)
    ensures q >= c || m * q + m <= c * m
  {
    if q < c {
      ProductGrows(m, q + 1, c);
      assert m * (q + 1) == m * q + m;
    }
  }

  /** The numbers counted as preimages are hash outputs: each is the number of exactly one octet string. */
  lemma PreimagesAreOutputs(curve: Curve, s: nat, x: nat)
    requires x in Preimages(curve, s)
    ensures var raw := Padded(x, curve.HashOctets());
            |raw| == curve.HashOctets() && FromBigEndian(raw) == x && ScalarOf(curve, raw) == s
  {
    hide Pow256;
    PaddedReadsBack(x, curve.HashOctets());
  }

  /** Every hash output gives a valid scalar, and the preimages of a scalar are exactly its hash outputs. */
  lemma ScalarsAreValid(curve: Curve, raw: bytes, s: nat)
    requires |raw| == curve.HashOctets()
    ensures 1 <= ScalarOf(curve, raw) < curve.Order()
    ensures FromBigEndian(raw) in Preimages(curve, s) <==> ScalarOf(curve, raw) == s
    ensures raw == Padded(FromBigEndian(raw), curve.HashOctets())
  {
    hide Pow256;
    FromBigEndianBound(raw);
    PaddedIsOnly(raw);
  }

  // ---- which scalar ----

  /** The scalar of `x` is the one number from 1 to the order less one that is congruent to `x + 1` modulo that. */
  lemma ScalarIsCongruent(curve: Curve, x: nat, s: nat)
    requires 1 <= s < curve.Order()
    ensures ScalarFrom(curve, x) == s <==> Congruent(x + 1, s, curve.Order() - 1)
  {
    var m := curve.Order() - 1;
    assert x == m * (x / m) + x % m;
    if ScalarFrom(curve, x) == s { assert DifferBy(x + 1, s, m, x / m); }
    if Congruent(x + 1, s, m) {
      var k: int :| DifferBy(x + 1, s, m, k);
      CongruentIsRemainder(x, m, s - 1, k);
    }
  }

  ghost predicate Congruent(a: int, b: int, m: int) {
    exists k: int :: DifferBy(a, b, m, k)
  }

  predicate DifferBy(a: int, b: int, m: int, k: int) {
    a == b + m * k
  }

  lemma NegativeFactor(m: int, k: int)
    requires m >= 0
    ensures k < 0 ==> m * k <= -m
  {
  }

  lemma CongruentIsRemainder(x: nat, m: nat, r: nat, k: int)
    requires r < m && x == r + m * k
    ensures x % m == r
  {
    NegativeFactor(m, k);
    DivModUnique(x, m, k, r);
  }

  /** In particular the hash output 0 gives the scalar 1, and each next one the next, up to the order less one. */
  lemma FirstScalars(curve: Curve, x: nat)
    requires x < curve.Order() - 1
    ensures ScalarFrom(curve, x) == x + 1
  {
    DivModUnique(x, curve.Order() - 1, 0, x);
  }
}
