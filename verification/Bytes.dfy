/** Octet strings, big-endian integers, and the failure types every other module uses. */
module Bytes {
  type byte = x: int | 0 <= x < 256
  type bytes = seq<byte>

  datatype Option<+T> = None | Some(value: T) {
    predicate IsFailure() { None? }
    function PropagateFailure<U>(): Option<U> requires None? { None }
    function Extract(): T requires Some? { value }
    function GetOr(default: T): T { if Some? then value else default }
  }

  datatype Result<+T, +E> = Success(value: T) | Failure(error: E) {
    predicate IsFailure() { Failure? }
    function PropagateFailure<U>(): Result<U, E> requires Failure? { Failure(error) }
    function Extract(): T requires Success? { value }
  }

  /** 256 to the power k. */
  function Pow256(k: nat): (p: nat)
    ensures p > 0
  {
    if k == 0 then 1 else 256 * Pow256(k - 1)
  }

  /** `int.from_bytes(s, "big")`. */
  function FromBigEndian(s: bytes): nat {
    if s == [] then 0 else 256 * FromBigEndian(s[..|s| - 1]) + s[|s| - 1]
  }

  /** The shortest big-endian octets of `n`; none at all for zero. */
  function ToBigEndian(n: nat): bytes {
    if n == 0 then [] else ToBigEndian(n / 256) + [n % 256]
  }

  /** `b"".join(xs)`. */
  function Join(xs: seq<bytes>): bytes {
    if xs == [] then [] else xs[0] + Join(xs[1..])
  }

  function Reverse<T>(s: seq<T>): seq<T> {
    if s == [] then [] else Reverse(s[1..]) + [s[0]]
  }

  lemma {:induction false} ReverseSnoc<T>(s: seq<T>, x: T)
    ensures Reverse(s + [x]) == [x] + Reverse(s)
  {
    if s != [] {
      assert (s + [x])[1..] == s[1..] + [x];
      ReverseSnoc(s[1..], x);
    }
  }

  lemma SliceOfSlice<T>(s: seq<T>, a: nat, b: nat, i: nat, j: nat)
    requires i <= j <= b - a && b <= |s|
    ensures s[a..b][i..j] == s[a + i..a + j]
  {
    var t := s[a..b];
    forall k | 0 <= k < j - i
      ensures t[i..j][k] == s[a + i..a + j][k]
    {
      assert t[i + k] == s[a + i + k];
    }
  }

  lemma {:induction false} Pow256Monotone(a: nat, b: nat)
    requires a <= b
    ensures Pow256(a) <= Pow256(b)
    decreases b
  {
    if a < b { Pow256Monotone(a, b - 1); }
  }

  lemma OctetBelowPow256(n: nat, k: nat)
    requires n < 256 && k > 0
    ensures n < Pow256(k)
  {
    Pow256Monotone(1, k);
    assert Pow256(1) == 256 * Pow256(0);
  }

  lemma ScaleProduct(c: nat, x: nat, y: nat)
    ensures c * (x * y) == (c * x) * y
  {
  }

  lemma {:induction false} FromBigEndianBound(s: bytes)
    ensures FromBigEndian(s) < Pow256(|s|)
  {
    if s != [] { FromBigEndianBound(s[..|s| - 1]); }
  }

  lemma {:induction false} ToBigEndianValue(n: nat)
    ensures FromBigEndian(ToBigEndian(n)) == n
    ensures n > 0 ==> |ToBigEndian(n)| > 0 && ToBigEndian(n)[0] != 0
  {
    if n > 0 {
      ToBigEndianValue(n / 256);
      var s := ToBigEndian(n);
      assert s[..|s| - 1] == ToBigEndian(n / 256);
    }
  }

  /** `k` octets suffice exactly for the values below 256^k. */
  lemma {:induction false} ToBigEndianLength(n: nat, k: nat)
    ensures |ToBigEndian(n)| <= k <==> n < Pow256(k)
  {
    if n > 0 && k > 0 { ToBigEndianLength(n / 256, k - 1); }
  }

  /** Decoding then encoding gives the octets back exactly when they have no leading zero. */
  lemma {:induction false} FromBigEndianMinimal(s: bytes)
    ensures ToBigEndian(FromBigEndian(s)) == s <==> (s == [] || s[0] != 0)
  {
    if |s| == 1 {
      assert FromBigEndian(s[..0]) == 0;
      assert ToBigEndian(0) == [];
      if s[0] != 0 { assert ToBigEndian(s[0]) == ToBigEndian(0) + [s[0]]; }
    } else if |s| > 1 {
      var init := s[..|s| - 1];
      FromBigEndianMinimal(init);
      if s[0] != 0 {
        FromBigEndianPositive(init);
        assert s == init + [s[|s| - 1]];
      } else {
        ToBigEndianValue(FromBigEndian(s));
      }
    }
  }

  lemma {:induction false} FromBigEndianPositive(s: bytes)
    requires s != [] && s[0] != 0
    ensures FromBigEndian(s) > 0
  {
    if |s| > 1 { FromBigEndianPositive(s[..|s| - 1]); }
  }

  lemma {:induction false} JoinConcat(xs: seq<bytes>, ys: seq<bytes>)
    ensures Join(xs + ys) == Join(xs) + Join(ys)
  {
    if xs == [] {
      assert xs + ys == ys;
    } else {
      JoinConcat(xs[1..], ys);
      assert (xs + ys)[1..] == xs[1..] + ys && (xs + ys)[0] == xs[0];
      assert xs[0] + (Join(xs[1..]) + Join(ys)) == (xs[0] + Join(xs[1..])) + Join(ys);
    }
  }

  lemma JoinSnoc(xs: seq<bytes>, x: bytes)
    ensures Join(xs + [x]) == Join(xs) + x
  {
    JoinConcat(xs, [x]);
    assert Join([x]) == x + Join([]);
  }

  lemma ConcatAssociates(a: bytes, b: bytes, c: bytes, d: bytes)
    ensures ((a + b) + c) + d == a + (b + (c + d))
    ensures (a + (b + c)) + d == a + (b + (c + d))
  {
  }
}
