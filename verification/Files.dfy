/** The numbered file names a chain is written under, and the order they are read back in. */
module Files {
  import opened Bytes
  import opened Text

  // ---- safe_filename ----

  predicate IsSafe(c: char) {
    'A' <= c <= 'Z' || 'a' <= c <= 'z' || '0' <= c <= '9' || c == '_' || c == '.' || c == '-'
  }

  /** `re.sub(r"[^A-Za-z0-9_.-]+", "-", s)`: every run of other characters becomes one dash. */
  function ReplaceRuns(s: string, inRun: bool): (r: string)
    ensures forall c <- r :: IsSafe(c)
  {
    if s == [] then []
    else if IsSafe(s[0]) then [s[0]] + ReplaceRuns(s[1..], false)
    else if inRun then ReplaceRuns(s[1..], true)
    else ['-'] + ReplaceRuns(s[1..], true)
  }

  predicate IsTrimmed(c: char) { c == '.' || c == '-' }

  function TrimLeft(s: string): string {
    if s != [] && IsTrimmed(s[0]) then TrimLeft(s[1..]) else s
  }

  function TrimRight(s: string): string {
    if s != [] && IsTrimmed(s[|s| - 1]) then TrimRight(s[..|s| - 1]) else s
  }

  /** `safe_filename`: None where the original refuses. */
  function SafeFilename(s: string): Option<string> {
    var safe := TrimRight(TrimLeft(ReplaceRuns(Strip(s), false)));
    if safe == [] then None else Some(safe)
  }

  lemma {:induction false} TrimLeftOnly(s: string)
    ensures exists k | 0 <= k <= |s| :: TrimLeft(s) == s[k..]
  {
    if s != [] && IsTrimmed(s[0]) {
      TrimLeftOnly(s[1..]);
      var k :| 0 <= k <= |s[1..]| && TrimLeft(s[1..]) == s[1..][k..];
      assert s[1..][k..] == s[k + 1..];
    } else {
      assert s == s[0..];
    }
  }

  /** The codes of the safe characters, and of those that are trimmed. */
  lemma SafeListed(c: char)
    ensures IsSafe(c) <==> c as int in {45, 46, 48, 49, 50, 51, 52, 53, 54, 55, 56, 57, 65, 66, 67, 68, 69, 70, 71, 72,
                                        73, 74, 75, 76, 77, 78, 79, 80, 81, 82, 83, 84, 85, 86, 87, 88, 89, 90, 95, 97,
                                        98, 99, 100, 101, 102, 103, 104, 105, 106, 107, 108, 109, 110, 111, 112, 113,
                                        114, 115, 116, 117, 118, 119, 120, 121, 122}
    ensures IsTrimmed(c) <==> c as int in {45, 46}
  {
  }

  /** A character that can start or end a safe name. */
  predicate IsKept(c: char) { IsSafe(c) && !IsTrimmed(c) }

  /** A non-empty string of safe characters without a dot or dash at either end. */
  predicate IsSafeName(s: string) {
    s != [] && (forall c <- s :: IsSafe(c)) && !IsTrimmed(s[0]) && !IsTrimmed(s[|s| - 1])
  }

  lemma {:induction false} TrimLeftShape(s: string)
    ensures TrimLeft(s) != [] ==> !IsTrimmed(TrimLeft(s)[0])
    ensures forall c | !IsTrimmed(c) :: c in TrimLeft(s) <==> c in s
  {
    if s != [] && IsTrimmed(s[0]) { TrimLeftShape(s[1..]); }
  }

  lemma {:induction false} TrimRightShape(s: string)
    ensures TrimRight(s) <= s
    ensures TrimRight(s) != [] ==> !IsTrimmed(TrimRight(s)[|TrimRight(s)| - 1])
    ensures forall c | !IsTrimmed(c) :: c in TrimRight(s) <==> c in s
  {
    if s != [] && IsTrimmed(s[|s| - 1]) {
      TrimRightShape(s[..|s| - 1]);
      assert s == s[..|s| - 1] + [s[|s| - 1]];
    }
  }

  lemma {:induction false} ReplaceKeeps(s: string, inRun: bool)
    ensures forall c | IsKept(c) :: c in ReplaceRuns(s, inRun) <==> c in s
    ensures (forall c <- s :: IsSafe(c)) ==> ReplaceRuns(s, inRun) == s
  {
    if s != [] {
      ReplaceKeeps(s[1..], !IsSafe(s[0]));
      assert s == [s[0]] + s[1..];
    }
  }

  lemma {:induction false} StripKeeps(s: string)
    ensures forall c | !IsSpace(c) :: c in StripLeft(s) <==> c in s
    ensures forall c | !IsSpace(c) :: c in StripRight(s) <==> c in s
    decreases |s|
  {
    if s != [] {
      StripKeeps(s[1..]);
      StripKeeps(s[..|s| - 1]);
      assert s == s[..|s| - 1] + [s[|s| - 1]] && s == [s[0]] + s[1..];
    }
  }

  lemma SafeIsNotSpace()
    ensures forall c | IsSafe(c) :: !IsSpace(c)
  {
  }

  /**
   Safe names: what is returned is one, strings that are one already come back unchanged, and exactly the
   strings without any character a safe name can start with are refused.
  */
  lemma SafeNamesAreSafe(s: string)
    ensures SafeFilename(s).Some? ==> IsSafeName(SafeFilename(s).value)
    ensures SafeFilename(s) == Some(s) <==> IsSafeName(s)
    ensures SafeFilename(s).Some? <==> exists c <- s :: IsKept(c)
  {
    var stripped := Strip(s);
    var r := ReplaceRuns(stripped, false);
    SafeIsNotSpace();
    StripKeeps(s);
    StripKeeps(StripLeft(s));
    ReplaceKeeps(stripped, false);
    TrimLeftShape(r);
    TrimRightShape(TrimLeft(r));
    TrimLeftOnly(r);
    var safe := TrimRight(TrimLeft(r));
    hide IsSpace, IsSafe, ReplaceRuns, TrimLeft, TrimRight, StripLeft, StripRight, IsTrimmed;
    if safe != [] {
      assert safe[0] == TrimLeft(r)[0];
      assert forall c <- safe :: c in TrimLeft(r) && c in r;
      assert safe[0] in safe && IsKept(safe[0]);
    }
    if IsSafeName(s) { SafeNamesStay(s); }
  }

  predicate AllTrimmed(s: string) {
    forall c <- s :: c == '.' || c == '-'
  }

  /** What is left and right of the safe name, once unsafe runs are dashes, is dots and dashes alone. */
  lemma SafeNameParts(s: string) returns (a: string, b: string)
    requires SafeFilename(s).Some?
    ensures AllTrimmed(a) && AllTrimmed(b) && ReplaceRuns(Strip(s), false) == a + (SafeFilename(s).value + b)
  {
    var r := ReplaceRuns(Strip(s), false);
    hide ReplaceRuns, Strip;
    a := TrimLeftParts(r);
    b := TrimRightParts(TrimLeft(r));
  }

  lemma {:induction false} TrimLeftParts(s: string) returns (a: string)
    ensures AllTrimmed(a) && s == a + TrimLeft(s)
  {
    a := [];
    if s != [] && IsTrimmed(s[0]) {
      var rest := TrimLeftParts(s[1..]);
      a := [s[0]] + rest;
      assert s == [s[0]] + s[1..] && [s[0]] + (rest + TrimLeft(s[1..])) == a + TrimLeft(s[1..]);
    }
  }

  lemma {:induction false} TrimRightParts(s: string) returns (b: string)
    ensures AllTrimmed(b) && s == TrimRight(s) + b
  {
    b := [];
    if s != [] && IsTrimmed(s[|s| - 1]) {
      b := TrimRightParts(s[..|s| - 1]);
      assert s == s[..|s| - 1] + [s[|s| - 1]];
      b := b + [s[|s| - 1]];
    }
  }

  lemma SafeNamesStay(s: string)
    requires IsSafeName(s)
    ensures SafeFilename(s) == Some(s)
  {
    SafeIsNotSpace();
    assert s[0] in s && s[|s| - 1] in s;
    StripShape(s);
    ReplaceKeeps(s, false);
  }

  // ---- decimal prefixes ----

  function Digit(d: nat): char
    requires d < 10
  {
    '0' + d as char
  }

  function Decimal(n: nat): string {
    if n < 10 then [Digit(n)] else Decimal(n / 10) + [Digit(n % 10)]
  }

  /** `f"{index:02d}"`. */
  function TwoDigits(n: nat): string {
    if n < 10 then ['0'] + Decimal(n) else Decimal(n)
  }

  predicate IsDigit(c: char) { '0' <= c <= '9' }

  /** The length of the leading run of digits. */
  function DigitRun(s: string): (k: nat)
    ensures k <= |s| && (forall i | 0 <= i < k :: IsDigit(s[i])) && (k < |s| ==> !IsDigit(s[k]))
  {
    if s == [] || !IsDigit(s[0]) then 0 else 1 + DigitRun(s[1..])
  }

  function DigitValue(c: char): nat
    requires IsDigit(c)
  {
    c as int - '0' as int
  }

  /** `int(s)` of a string of digits. */
  function ParseDecimal(s: string): nat
    requires forall c <- s :: IsDigit(c)
  {
    if s == [] then 0 else 10 * ParseDecimal(s[..|s| - 1]) + DigitValue(s[|s| - 1])
  }

  lemma {:induction false} DecimalReadsBack(n: nat)
    ensures Decimal(n) != [] && forall c <- Decimal(n) :: IsDigit(c)
    ensures ParseDecimal(Decimal(n)) == n
  {
    if n < 10 {
      assert Decimal(n)[..0] == [];
    } else {
      DecimalReadsBack(n / 10);
      var s := Decimal(n);
      assert s[..|s| - 1] == Decimal(n / 10);
    }
  }

  lemma TwoDigitsReadBack(n: nat)
    ensures TwoDigits(n) != [] && forall c <- TwoDigits(n) :: IsDigit(c)
    ensures ParseDecimal(TwoDigits(n)) == n
  {
    DecimalReadsBack(n);
    if n < 10 {
      assert TwoDigits(n)[..1] == ['0'] && ['0'][..0] == [];
      assert ParseDecimal(['0']) == 0;
    }
  }

  // ---- the file names of a chain ----

  const CERT_SUFFIX: string := ".cert.pem"
  const KEY_SUFFIX: string := ".key.pem"

  function CertFile(index: nat, safe: string): string {
    TwoDigits(index) + ("-" + (safe + CERT_SUFFIX))
  }

  function KeyFile(index: nat, safe: string): string {
    TwoDigits(index) + ("-" + (safe + KEY_SUFFIX))
  }

  predicate EndsWith(s: string, suffix: string) {
    |suffix| <= |s| && s[|s| - |suffix|..] == suffix
  }

  /**
   The number `^(\d+)-.+\.cert\.pem$` captures, for names without line ends: digits, a dash, at least one
   character, the suffix.
  */
  function MatchCertFile(name: string): Option<nat> {
    var k := DigitRun(name);
    if k == 0 || k >= |name| || name[k] != '-' || |name| - k < 2 + |CERT_SUFFIX| || !EndsWith(name, CERT_SUFFIX)
    then None
    else Some(ParseDecimal(name[..k]))
  }

  lemma DigitRunOf(prefix: string, rest: string)
    requires (forall c <- prefix :: IsDigit(c)) && (rest == [] || !IsDigit(rest[0]))
    ensures DigitRun(prefix + rest) == |prefix|
  {
    var s := prefix + rest;
    assert forall i | 0 <= i < |prefix| :: s[i] == prefix[i] && prefix[i] in prefix;
    assert rest != [] ==> s[|prefix|] == rest[0];
  }

  /** The pattern: digits, a dash, at least one character, the suffix. */
  ghost predicate IsCertName(name: string, digits: string, middle: string) {
    && digits != [] && (forall c <- digits :: IsDigit(c)) && middle != []
    && name == digits + ("-" + (middle + ".cert.pem"))
  }

  /** A name matches with a number exactly when it has the form of the pattern with those digits in front. */
  lemma MatchesThePattern(name: string, n: nat)
    ensures MatchCertFile(name) == Some(n) <==>
            exists digits, middle :: IsCertName(name, digits, middle) && n == ParseDecimal(digits)
  {
    hide MatchCertFile, ParseDecimal;
    if MatchCertFile(name).Some? { var digits, middle := MatchHasParts(name); }
    forall digits, middle | IsCertName(name, digits, middle) ensures MatchCertFile(name) == Some(ParseDecimal(digits)) {
      PartsMatch(name, digits, middle);
    }
  }

  lemma MatchHasParts(name: string) returns (digits: string, middle: string)
    requires MatchCertFile(name).Some?
    ensures IsCertName(name, digits, middle) && MatchCertFile(name) == Some(ParseDecimal(digits))
  {
    hide ParseDecimal;
    var k := DigitRun(name);
    digits, middle := name[..k], name[k + 1..|name| - 9];
    assert name == digits + ("-" + (middle + name[|name| - 9..]));
  }

  lemma PartsMatch(name: string, digits: string, middle: string)
    requires IsCertName(name, digits, middle)
    ensures MatchCertFile(name) == Some(ParseDecimal(digits))
  {
    hide ParseDecimal;
    DigitRunOf(digits, "-" + (middle + ".cert.pem"));
    assert name[..|digits|] == digits && name[|digits|] == '-';
    assert name[|name| - 9..] == ".cert.pem";
  }

  /** A certificate file gives its index back; a key file is never taken for a certificate. */
  lemma CertFileMatches(index: nat, safe: string)
    requires safe != []
    ensures MatchCertFile(CertFile(index, safe)) == Some(index)
    ensures MatchCertFile(KeyFile(index, safe)) == None
  {
    var digits, rest := TwoDigits(index), "-" + (safe + CERT_SUFFIX);
    TwoDigitsReadBack(index);
    DigitRunOf(digits, rest);
    var name := CertFile(index, safe);
    assert name[..|digits|] == digits && name[|digits|] == '-';
    assert name[|name| - 9..] == CERT_SUFFIX;
    var key := KeyFile(index, safe);
    assert key[|key| - 9..][1] == key[|key| - 8] == KEY_SUFFIX[0] != CERT_SUFFIX[1];
  }

  // ---- what becomes of unsafe characters ----

  predicate AllUnsafe(s: string) {
    forall c <- s :: !IsSafe(c)
  }

  lemma {:induction false} UnsafeRunVanishes(u: string, b: string)
    requires AllUnsafe(u) && (b == [] || IsSafe(b[0]))
    ensures ReplaceRuns(u + b, true) == ReplaceRuns(b, false)
  {
    if u == [] {
      assert u + b == b;
    } else {
      assert u[0] in u && forall c <- u[1..] :: c in u;
      assert (u + b)[1..] == u[1..] + b;
      UnsafeRunVanishes(u[1..], b);
    }
  }

  /** A run of unsafe characters becomes one dash, and what is around it is treated for itself. */
  lemma {:induction false} RunBecomesDash(a: string, u: string, b: string)
    requires (a == [] || IsSafe(a[|a| - 1])) && u != [] && AllUnsafe(u) && (b == [] || IsSafe(b[0]))
    ensures ReplaceRuns(a + (u + b), false) == ReplaceRuns(a, false) + (['-'] + ReplaceRuns(b, false))
    decreases |a|
  {
    RunBecomesDashAfter(a, u, b, false);
  }

  lemma {:induction false} RunBecomesDashAfter(a: string, u: string, b: string, inRun: bool)
    requires (a == [] || IsSafe(a[|a| - 1])) && u != [] && AllUnsafe(u) && (b == [] || IsSafe(b[0]))
    requires a == [] ==> !inRun
    ensures ReplaceRuns(a + (u + b), inRun) == ReplaceRuns(a, inRun) + (['-'] + ReplaceRuns(b, false))
    decreases |a|
  {
    hide ReplaceRuns, IsSafe;
    if a == [] {
      assert u[0] in u && forall c <- u[1..] :: c in u;
      assert a + (u + b) == [u[0]] + (u[1..] + b);
      ReplaceCons(u[0], u[1..] + b, inRun);
      UnsafeRunVanishes(u[1..], b);
      ReplaceNone();
    } else {
      assert a + (u + b) == [a[0]] + (a[1..] + (u + b)) && a == [a[0]] + a[1..];
      ReplaceCons(a[0], a[1..] + (u + b), inRun);
      ReplaceCons(a[0], a[1..], inRun);
      RunBecomesDashAfter(a[1..], u, b, !IsSafe(a[0]));
    }
  }

  lemma ReplaceCons(c: char, t: string, inRun: bool)
    ensures ReplaceRuns([c] + t, inRun)
            == (if IsSafe(c) then [c] else if inRun then [] else ['-']) + ReplaceRuns(t, !IsSafe(c))
  {
    assert ([c] + t)[1..] == t;
  }

  lemma ReplaceNone()
    ensures ReplaceRuns([], false) == []
  {
  }

  /** Two safe names with unsafe characters between them are joined by a dash. */
  lemma SafeNamesJoin(a: string, u: string, b: string)
    requires IsSafeName(a) && u != [] && AllUnsafe(u) && IsSafeName(b)
    ensures SafeFilename(a + (u + b)) == Some(a + (['-'] + b))
  {
    hide IsSafe, IsTrimmed;
    var s, r := a + (u + b), a + (['-'] + b);
    JoinedIsStripped(a, u, b);
    RunBecomesDash(a, u, b);
    ReplaceKeeps(a, false);
    ReplaceKeeps(b, false);
    hide ReplaceRuns;
    assert r[0] == a[0] && r[|r| - 1] == b[|b| - 1];
  }

  lemma JoinedIsStripped(a: string, u: string, b: string)
    requires IsSafeName(a) && u != [] && AllUnsafe(u) && IsSafeName(b)
    ensures Strip(a + (u + b)) == a + (u + b) && IsSafe(a[|a| - 1]) && IsSafe(b[0])
  {
    var s := a + (u + b);
    SafeIsNotSpace();
    assert a[0] in a && b[|b| - 1] in b && a[|a| - 1] in a && b[0] in b;
    assert s[0] == a[0] && s[|s| - 1] == b[|b| - 1];
    StripShape(s);
  }

  // ---- the shape of numbers in names ----

  lemma {:induction false} DecimalShape(n: nat)
    ensures n >= 10 ==> |Decimal(n)| >= 2 && Decimal(n)[0] != '0'
    ensures n < 10 ==> |Decimal(n)| == 1
    ensures n < 100 ==> |Decimal(n)| <= 2
  {
    if n >= 10 {
      DecimalShape(n / 10);
      if n / 10 < 10 { assert Decimal(n / 10) == [Digit(n / 10)]; }
    }
  }

  /** Numbers are padded to two digits, and to no more. */
  lemma TwoDigitsShape(n: nat)
    ensures |TwoDigits(n)| >= 2
    ensures |TwoDigits(n)| > 2 ==> TwoDigits(n)[0] != '0'
    ensures n < 100 ==> |TwoDigits(n)| == 2
  {
    DecimalShape(n);
  }

  /** The names written for the first entry of a chain with this id. */
  lemma FirstFiles()
    ensures CertFile(0, "root") == "00-root.cert.pem" && KeyFile(0, "root") == "00-root.key.pem"
  {
    assert TwoDigits(0) == "00";
  }
}
