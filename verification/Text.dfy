/** Python's `str.strip()`, `in` and `str.replace()`. */
module Text {
  /** The characters `str.isspace()` accepts, which `strip()` removes. */
  predicate IsSpace(c: char) {
    || 0x09 <= c as int <= 0x0D || 0x1C <= c as int <= 0x20 || c as int in {0x85, 0xA0, 0x1680}
    || 0x2000 <= c as int <= 0x200A || c as int in {0x2028, 0x2029, 0x202F, 0x205F, 0x3000}
  }

  function StripLeft(s: string): string {
    if s != [] && IsSpace(s[0]) then StripLeft(s[1..]) else s
  }

  function StripRight(s: string): string {
    if s != [] && IsSpace(s[|s| - 1]) then StripRight(s[..|s| - 1]) else s
  }

  function Strip(s: string): string {
    StripRight(StripLeft(s))
  }

  /** `s` neither starts nor ends with white space. */
  predicate IsStripped(s: string) {
    s == [] || (!IsSpace(s[0]) && !IsSpace(s[|s| - 1]))
  }

  lemma {:induction false} StripLeftShape(s: string)
    ensures StripLeft(s) == [] || !IsSpace(StripLeft(s)[0])
  {
    if s != [] && IsSpace(s[0]) { StripLeftShape(s[1..]); }
  }

  lemma {:induction false} StripRightShape(s: string)
    ensures StripRight(s) <= s
    ensures StripRight(s) == [] || !IsSpace(StripRight(s)[|StripRight(s)| - 1])
  {
    if s != [] && IsSpace(s[|s| - 1]) { StripRightShape(s[..|s| - 1]); }
  }

  /** What `strip()` returns has no outer white space, and strings without any are its fixed points. */
  lemma StripShape(s: string)
    ensures IsStripped(Strip(s))
    ensures Strip(s) == s <==> IsStripped(s)
  {
    StripLeftShape(s);
    StripRightShape(StripLeft(s));
  }

  lemma {:induction false} StripRightCons(c: char, t: string)
    ensures StripRight([c] + t)
            == if StripRight(t) == [] then (if IsSpace(c) then [] else [c]) else [c] + StripRight(t)
    decreases |t|
  {
    var s := [c] + t;
    if t == [] {
      assert s[..0] == [];
    } else if IsSpace(t[|t| - 1]) {
      assert s[..|s| - 1] == [c] + t[..|t| - 1];
      StripRightCons(c, t[..|t| - 1]);
    }
  }

  /** Stripping at the right first changes nothing. */
  lemma {:induction false} StripAfterRight(s: string)
    ensures StripLeft(StripRight(s)) == Strip(s)
    ensures Strip(StripRight(s)) == Strip(s)
  {
    StripSides(s);
    StripRightTwice(s);
    StripSides(StripRight(s));
  }

  lemma {:induction false} StripSides(s: string)
    ensures StripLeft(StripRight(s)) == StripRight(StripLeft(s))
  {
    if s != [] {
      var c, t := s[0], s[1..];
      assert s == [c] + t;
      StripRightCons(c, t);
      if IsSpace(c) {
        StripSides(t);
        assert StripRight(t) != [] ==> StripRight(s)[1..] == StripRight(t);
      }
    }
  }

  lemma {:induction false} StripRightTwice(s: string)
    ensures StripRight(StripRight(s)) == StripRight(s)
  {
    StripRightShape(s);
  }

  /** Stripping keeps the length only of strings it leaves alone. */
  lemma StripLength(s: string)
    ensures |Strip(s)| <= |s|
    ensures |Strip(s)| == |s| ==> Strip(s) == s
  {
    StripLeftLength(s);
    StripRightShape(StripLeft(s));
  }

  lemma {:induction false} StripLeftLength(s: string)
    ensures |StripLeft(s)| <= |s|
    ensures |StripLeft(s)| == |s| ==> StripLeft(s) == s
  {
    if s != [] && IsSpace(s[0]) { StripLeftLength(s[1..]); }
  }

  /** White space, one by one: the controls, the space, and the spaces and separators of Unicode. */
  lemma SpacesListed(c: char)
    ensures IsSpace(c) <==> c as int in {9, 10, 11, 12, 13, 28, 29, 30, 31, 32, 133, 160, 5760, 8192, 8193, 8194, 8195,
                                         8196, 8197, 8198, 8199, 8200, 8201, 8202, 8232, 8233, 8239, 8287, 12288}
  {
  }

  predicate AllSpace(s: string) {
    forall c <- s :: IsSpace(c)
  }

  /** White space on both sides is dropped, and nothing else is. */
  lemma StripDropsSpace(a: string, s: string, b: string)
    requires AllSpace(a) && AllSpace(b) && IsStripped(s)
    ensures Strip(a + (s + b)) == s
  {
    StripLeftDrops(a, s + b);
    if s == [] {
      StripLeftDrops(b, []);
      assert s + b == b && b + [] == b;
    } else {
      assert StripLeft(s + b) == s + b;
      StripRightDrops(s, b);
    }
  }

  lemma {:induction false} StripLeftDrops(a: string, s: string)
    requires AllSpace(a)
    ensures StripLeft(a + s) == StripLeft(s)
  {
    if a == [] {
      assert a + s == s;
    } else {
      assert a[0] in a && forall c <- a[1..] :: c in a;
      assert (a + s)[1..] == a[1..] + s;
      StripLeftDrops(a[1..], s);
    }
  }

  lemma {:induction false} StripRightDrops(s: string, b: string)
    requires AllSpace(b) && (s != [] ==> !IsSpace(s[|s| - 1]))
    ensures StripRight(s + b) == s
  {
    if b == [] {
      assert s + b == s;
    } else {
      var init := b[..|b| - 1];
      assert b[|b| - 1] in b && forall c <- init :: c in b;
      assert (s + b)[..|s + b| - 1] == s + init;
      StripRightDrops(s, init);
    }
  }

  /** Every string is what stripping leaves between two stretches of white space. */
  lemma StripParts(s: string) returns (a: string, b: string)
    ensures AllSpace(a) && AllSpace(b) && s == a + (Strip(s) + b)
  {
    a := StripLeftParts(s);
    b := StripRightParts(StripLeft(s));
  }

  lemma {:induction false} StripLeftParts(s: string) returns (a: string)
    ensures AllSpace(a) && s == a + StripLeft(s)
  {
    a := [];
    if s != [] && IsSpace(s[0]) {
      a := StripLeftParts(s[1..]);
      assert s == [s[0]] + s[1..];
      a := [s[0]] + a;
    }
  }

  lemma {:induction false} StripRightParts(s: string) returns (b: string)
    ensures AllSpace(b) && s == StripRight(s) + b
  {
    b := [];
    if s != [] && IsSpace(s[|s| - 1]) {
      b := StripRightParts(s[..|s| - 1]);
      assert s == s[..|s| - 1] + [s[|s| - 1]];
      b := b + [s[|s| - 1]];
    }
  }

  // ---- substrings ----

  /** `sub in s`. */
  predicate IsSubstring(sub: string, s: string) {
    sub <= s || (s != [] && IsSubstring(sub, s[1..]))
  }

  /** `sub in s` holds exactly when `sub` stands somewhere in `s`. */
  lemma {:induction false} SubstringStands(sub: string, s: string)
    ensures IsSubstring(sub, s) <==> exists i :: StandsAt(sub, s, i)
  {
    StandsInFront(sub, s);
    if s != [] {
      hide StandsAt;
      SubstringStands(sub, s[1..]);
      forall i | i >= 1 ensures StandsAt(sub, s, i) <==> StandsAt(sub, s[1..], i - 1) { StandsShift(sub, s, i); }
      if j :| StandsAt(sub, s[1..], j) { StandsNotBefore(sub, s[1..], j); assert StandsAt(sub, s, j + 1); }
      if i :| StandsAt(sub, s, i) { StandsNotBefore(sub, s, i); }
    }
  }

  lemma StandsInFront(sub: string, s: string)
    ensures StandsAt(sub, s, 0) <==> sub <= s
    ensures s == [] ==> forall i :: StandsAt(sub, s, i) ==> i == 0
  {
  }

  lemma StandsNotBefore(sub: string, s: string, i: int)
    requires StandsAt(sub, s, i)
    ensures i >= 0
  {
  }

  lemma StandsShift(sub: string, s: string, i: int)
    requires s != [] && i >= 1
    ensures StandsAt(sub, s, i) <==> StandsAt(sub, s[1..], i - 1)
  {
    if i <= |s| - |sub| { assert s[1..][i - 1..i - 1 + |sub|] == s[i..i + |sub|]; }
  }

  predicate StandsAt(sub: string, s: string, i: int) {
    0 <= i <= |s| - |sub| && s[i..i + |sub|] == sub
  }

  /** What holds no first character of the pattern does not hold the pattern. */
  lemma {:induction false} NoSubstring(sub: string, s: string)
    requires sub != [] && sub[0] !in s
    ensures !IsSubstring(sub, s)
  {
    if s != [] { NoSubstring(sub, s[1..]); }
  }

  /** `s.replace(pattern, other)`: all occurrences, from the left. */
  function ReplaceAll(s: string, pattern: string, other: string): string
    requires pattern != []
    decreases |s|
  {
    if s == [] then []
    else if pattern <= s then other + ReplaceAll(s[|pattern|..], pattern, other)
    else [s[0]] + ReplaceAll(s[1..], pattern, other)
  }

  lemma FrontAround(a: string, d: char, b: string, pattern: string)
    requires d !in pattern
    ensures pattern <= a + ([d] + b) <==> pattern <= a
  {
    var s := a + ([d] + b);
    assert s[|a|] == d;
    if |pattern| <= |a| { assert s[..|pattern|] == a[..|pattern|]; }
  }

  /** A character the pattern does not hold cuts a replacement in two. */
  lemma {:induction false} ReplaceAround(a: string, d: char, b: string, pattern: string, other: string)
    requires pattern != [] && d !in pattern
    ensures ReplaceAll(a + ([d] + b), pattern, other)
            == ReplaceAll(a, pattern, other) + ([d] + ReplaceAll(b, pattern, other))
    decreases |a|
  {
    var s := a + ([d] + b);
    FrontAround(a, d, b, pattern);
    if a == [] {
      assert s[1..] == b && ReplaceAll(a, pattern, other) == [];
    } else if pattern <= a {
      assert s[|pattern|..] == a[|pattern|..] + ([d] + b);
      ReplaceAround(a[|pattern|..], d, b, pattern, other);
    } else {
      assert s[1..] == a[1..] + ([d] + b);
      ReplaceAround(a[1..], d, b, pattern, other);
    }
  }

  lemma {:induction false} ReplaceNothing(s: string, pattern: string, other: string)
    requires pattern != [] && !IsSubstring(pattern, s)
    ensures ReplaceAll(s, pattern, other) == s
  {
    if s != [] {
      ReplaceNothing(s[1..], pattern, other);
      assert s == [s[0]] + s[1..];
    }
  }

  /** Replacing by a shorter string shortens exactly the strings that hold the pattern. */
  lemma {:induction false} ReplaceShortens(s: string, pattern: string, other: string)
    requires |other| < |pattern|
    ensures |ReplaceAll(s, pattern, other)| <= |s|
    ensures IsSubstring(pattern, s) ==> |ReplaceAll(s, pattern, other)| < |s|
    decreases |s|
  {
    if s != [] {
      var n := if pattern <= s then |pattern| else 1;
      ReplaceShortens(s[n..], pattern, other);
    }
  }

  lemma {:induction false} SubstringAtEnd(p: string, sub: string)
    ensures IsSubstring(sub, p + sub)
  {
    if p == [] {
      assert p + sub == sub;
    } else {
      assert (p + sub)[1..] == p[1..] + sub;
      SubstringAtEnd(p[1..], sub);
    }
  }
}
