/** The escape automata over DN strings, and the DN string parser built from them. */
module Dn {
  import opened Bytes

  // ---- what each scanner computes ----

  /** `unescape_dn_value`: a backslash yields the next character, a dangling one itself. */
  function Unescape(s: string): string {
    if s == [] then []
    else if s[0] != '\\' then [s[0]] + Unescape(s[1..])
    else if |s| == 1 then ['\\']
    else [s[1]] + Unescape(s[2..])
  }

  /** `split_unescaped`: pieces between unescaped delimiters, with one level of escapes removed. */
  function SplitUnescaped(s: string, d: char): (r: seq<string>)
    ensures r != []
  {
    if s == [] then [[]]
    else if s[0] == '\\' then
      if |s| == 1 then [['\\']] else Prepend(s[1], SplitUnescaped(s[2..], d))
    else if s[0] == d then [[]] + SplitUnescaped(s[1..], d)
    else Prepend(s[0], SplitUnescaped(s[1..], d))
  }

  function Prepend(c: char, pieces: seq<string>): (r: seq<string>)
    requires pieces != []
    ensures r != []
  {
    [[c] + pieces[0]] + pieces[1..]
  }

  /** `split_once_unescaped`: cut at the first unescaped delimiter, escapes kept. */
  function SplitOnce(s: string, d: char): Option<(string, string)> {
    if s == [] then None
    else if s[0] == '\\' then
      if |s| == 1 then None
      else
        var (l, r) :- SplitOnce(s[2..], d);
        Some((s[..2] + l, r))
    else if s[0] == d then Some(([], s[1..]))
    else
      var (l, r) :- SplitOnce(s[1..], d);
      Some((s[..1] + l, r))
  }

  // ---- the scanners, as loops ----

  /** What is left to unescape when a backslash may be pending. */
  function UnescapePending(escaped: bool, s: string): string {
    if escaped then Unescape(['\\'] + s) else Unescape(s)
  }

  method UnescapeDnValue(value: string) returns (r: string)
    ensures r == Unescape(value)
  {
    hide Unescape, UnescapePending;
    var escaped := false;
    r := [];
    assert value[0..] == value;
    PendingEnds(value);
    for i := 0 to |value|
      invariant r + UnescapePending(escaped, value[i..]) == Unescape(value)
    {
      var c, rest := value[i], value[i + 1..];
      assert value[i..] == [c] + rest;
      PendingStep(r, escaped, c, rest);
      if escaped {
        r := r + [c];
        escaped := false;
      } else if c == '\\' {
        escaped := true;
      } else {
        r := r + [c];
      }
    }
    assert value[|value|..] == [];
    assert r + [] == r;
    if escaped { r := r + ['\\']; }
  }

  lemma PendingEnds(s: string)
    ensures UnescapePending(false, s) == Unescape(s)
    ensures UnescapePending(false, []) == [] && UnescapePending(true, []) == ['\\']
  {
  }

  lemma PendingStep(done: string, escaped: bool, c: char, rest: string)
    ensures done + UnescapePending(escaped, [c] + rest)
            == if escaped || c != '\\' then (done + [c]) + UnescapePending(false, rest)
               else done + UnescapePending(true, rest)
  {
    assert ([c] + rest)[1..] == rest;
    assert (['\\'] + ([c] + rest))[2..] == rest;
    assert done + ([c] + Unescape(rest)) == (done + [c]) + Unescape(rest);
  }

  function SplitPending(escaped: bool, s: string, d: char): (r: seq<string>)
    ensures r != []
  {
    if escaped then SplitUnescaped(['\\'] + s, d) else SplitUnescaped(s, d)
  }

  /** `current` in front of the first of the pieces. */
  function Continue(current: string, pieces: seq<string>): seq<string>
    requires pieces != []
  {
    [current + pieces[0]] + pieces[1..]
  }

  method SplitAtUnescaped(value: string, delimiter: char) returns (pieces: seq<string>)
    ensures pieces == SplitUnescaped(value, delimiter)
  {
    hide SplitPending, SplitUnescaped, Continue;
    pieces := [];
    var current: string, escaped := [], false;
    assert value[0..] == value;
    SplitStarts(value, delimiter);
    for i := 0 to |value|
      invariant pieces + Continue(current, SplitPending(escaped, value[i..], delimiter))
                == SplitUnescaped(value, delimiter)
    {
      var c, rest := value[i], value[i + 1..];
      assert value[i..] == [c] + rest;
      SplitStep(pieces, current, escaped, c, rest, delimiter);
      if escaped {
        current := current + [c];
        escaped := false;
      } else if c == '\\' {
        escaped := true;
      } else if c == delimiter {
        pieces := pieces + [current];
        current := [];
      } else {
        current := current + [c];
      }
    }
    assert value[|value|..] == [];
    SplitEnds(current, escaped, delimiter);
    if escaped { current := current + ['\\']; }
    pieces := pieces + [current];
  }

  lemma SplitStarts(value: string, d: char)
    ensures [] + Continue([], SplitPending(false, value, d)) == SplitUnescaped(value, d)
  {
    ContinueEmpty(SplitUnescaped(value, d));
  }

  lemma SplitEnds(current: string, escaped: bool, d: char)
    ensures Continue(current, SplitPending(escaped, [], d)) == [if escaped then current + ['\\'] else current]
  {
    assert current + [] == current;
  }

  lemma ContinueEmpty(pieces: seq<string>)
    requires pieces != []
    ensures Continue([], pieces) == pieces
  {
    assert [] + pieces[0] == pieces[0];
  }

  lemma SplitStep(done: seq<string>, current: string, escaped: bool, c: char, rest: string, d: char)
    ensures done + Continue(current, SplitPending(escaped, [c] + rest, d))
            == if !escaped && c == '\\' then done + Continue(current, SplitPending(true, rest, d))
               else if !escaped && c == d then (done + [current]) + Continue([], SplitPending(false, rest, d))
               else done + Continue(current + [c], SplitPending(false, rest, d))
  {
    assert ([c] + rest)[1..] == rest;
    var escapedRest := ['\\'] + ([c] + rest);
    assert escapedRest[2..] == rest && escapedRest[1] == c;
    var pieces := SplitUnescaped(rest, d);
    assert current + ([c] + pieces[0]) == (current + [c]) + pieces[0];
    assert Prepend(c, pieces)[1..] == pieces[1..];
    ContinueEmpty(pieces);
    assert current + [] == current && ([[]] + pieces)[1..] == pieces;
    assert done + ([current] + pieces) == (done + [current]) + pieces;
  }

  method SplitOnceUnescaped(value: string, delimiter: char) returns (r: Option<(string, string)>)
    ensures r == SplitOnce(value, delimiter)
  {
    var escaped := false;
    assert value[0..] == value;
    if SplitOnce(value, delimiter).Some? {
      assert [] + SplitOnce(value, delimiter).value.0 == SplitOnce(value, delimiter).value.0;
    }
    for i := 0 to |value|
      invariant escaped ==> i > 0 && value[i - 1] == '\\'
      invariant var done := if escaped then i - 1 else i;
                SplitOnce(value, delimiter) == Shift(value[..done], SplitOnce(value[done..], delimiter))
    {
      var done := if escaped then i - 1 else i;
      OnceStep(value, done, delimiter);
      if escaped {
        escaped := false;
      } else if value[i] == '\\' {
        escaped := true;
      } else if value[i] == delimiter {
        return Some((value[..i], value[i + 1..]));
      }
    }
    return None;
  }

  function Shift(prefix: string, r: Option<(string, string)>): Option<(string, string)> {
    if r.None? then None else Some((prefix + r.value.0, r.value.1))
  }

  lemma OnceStep(value: string, i: nat, d: char)
    requires i < |value|
    ensures value[i] == '\\' && i + 1 < |value| ==>
              Shift(value[..i], SplitOnce(value[i..], d)) == Shift(value[..i + 2], SplitOnce(value[i + 2..], d))
    ensures value[i] != '\\' && value[i] != d ==>
              Shift(value[..i], SplitOnce(value[i..], d)) == Shift(value[..i + 1], SplitOnce(value[i + 1..], d))
    ensures value[i] != '\\' && value[i] == d ==>
              Shift(value[..i], SplitOnce(value[i..], d)) == Some((value[..i], value[i + 1..]))
    ensures value[i] == '\\' && i + 1 == |value| ==> SplitOnce(value[i..], d) == None
  {
    var s := value[i..];
    assert s[1..] == value[i + 1..] && value[..i] + [] == value[..i];
    if i + 1 < |value| { ShiftTwice(value, i, 2, SplitOnce(value[i + 2..], d)); }
    ShiftTwice(value, i, 1, SplitOnce(value[i + 1..], d));
  }

  lemma ShiftTwice(value: string, i: nat, n: nat, r: Option<(string, string)>)
    requires i + n <= |value|
    ensures value[i..][n..] == value[i + n..]
    ensures Shift(value[..i], Shift(value[i..][..n], r)) == Shift(value[..i + n], r)
  {
    assert value[..i] + value[i..][..n] == value[..i + n];
    if r.Some? { assert value[..i] + (value[i..][..n] + r.value.0) == value[..i + n] + r.value.0; }
  }

  // ---- the three scanners agree ----

  /**
   For every string and every delimiter: `split_once_unescaped` cuts exactly when `split_unescaped` gives
   two pieces or more, and then its left part unescapes to the first piece and its right part splits into
   the others; otherwise the only piece is the unescaped string, dangling backslash included.
  */
  lemma {:induction false} ScannersAgree(s: string, d: char)
    ensures SplitOnce(s, d).Some? <==> |SplitUnescaped(s, d)| >= 2
    ensures SplitOnce(s, d).Some? ==>
              var (l, r) := SplitOnce(s, d).value;
              SplitUnescaped(s, d) == [Unescape(l)] + SplitUnescaped(r, d)
    ensures SplitOnce(s, d).None? ==> SplitUnescaped(s, d) == [Unescape(s)]
  {
    if s == [] {
    } else if s[0] == '\\' {
      if |s| > 1 {
        ScannersAgree(s[2..], d);
        if SplitOnce(s[2..], d).Some? { assert (s[..2] + SplitOnce(s[2..], d).value.0)[2..] == SplitOnce(s[2..], d).value.0; }
      }
    } else if s[0] != d {
      ScannersAgree(s[1..], d);
      if SplitOnce(s[1..], d).Some? { assert (s[..1] + SplitOnce(s[1..], d).value.0)[1..] == SplitOnce(s[1..], d).value.0; }
    }
  }

  /** The cut is at the first delimiter that is not escaped: nothing is lost, and there is none before it. */
  lemma {:induction false} SplitOnceParts(s: string, d: char)
    requires SplitOnce(s, d).Some?
    ensures var (l, r) := SplitOnce(s, d).value; s == l + ([d] + r) && SplitOnce(l, d).None?
  {
    if s[0] == '\\' || s[0] != d {
      var n := if s[0] == '\\' then 2 else 1;
      SplitOnceParts(s[n..], d);
      var (l, r) := SplitOnce(s[n..], d).value;
      assert SplitOnce(s, d) == Some((s[..n] + l, r));
      assert (s[..n] + l)[n..] == l && (s[..n] + l)[0] == s[0];
      assert s == s[..n] + s[n..] && s[..n] + (l + ([d] + r)) == (s[..n] + l) + ([d] + r);
    }
  }

  // ---- what an unescaped delimiter is ----

  /** Whether `s` ends in the middle of an escape: in an odd number of backslashes. */
  predicate Pending(s: string) {
    s != [] && s[|s| - 1] == '\\' && !Pending(s[..|s| - 1])
  }

  predicate UnescapedAt(s: string, d: char, i: int) {
    0 <= i < |s| && s[i] == d && !Pending(s[..i])
  }

  lemma {:induction false} PendingBehind(a: string, t: string)
    requires !Pending(a)
    ensures Pending(a + t) == Pending(t)
  {
    if t == [] {
      assert a + t == a;
    } else {
      assert (a + t)[..|a + t| - 1] == a + t[..|t| - 1];
      PendingBehind(a, t[..|t| - 1]);
    }
  }

  /** Behind a whole character, escaped or not, the unescaped places are those of the rest. */
  lemma UnescapedBehind(s: string, d: char, n: nat, i: int)
    requires n <= |s| && !Pending(s[..n]) && i >= n
    ensures UnescapedAt(s, d, i) <==> UnescapedAt(s[n..], d, i - n)
  {
    if i <= |s| {
      assert s[..i] == s[..n] + s[n..][..i - n];
      PendingBehind(s[..n], s[n..][..i - n]);
    }
  }

  /** The cut is at the first unescaped delimiter, and there is one exactly when the string holds one. */
  lemma {:induction false} CutsAtFirstUnescaped(s: string, d: char)
    requires d != '\\'
    ensures SplitOnce(s, d).Some? <==> exists i :: UnescapedAt(s, d, i)
    ensures SplitOnce(s, d).Some? ==>
              var (l, r) := SplitOnce(s, d).value;
              UnescapedAt(s, d, |l|) && l == s[..|l|] && r == s[|l| + 1..] && forall i | i < |l| :: !UnescapedAt(s, d, i)
  {
    if s == [] {
    } else if s[0] == d && d != '\\' {
      assert s[..0] == [];
      assert UnescapedAt(s, d, 0);
    } else if s[0] == '\\' && |s| == 1 {
      assert forall i :: !UnescapedAt(s, d, i);
    } else {
      var n := if s[0] == '\\' then 2 else 1;
      FirstCharacter(s, n);
      CutsAtFirstUnescaped(s[n..], d);
      CutsBehind(s, d, n);
    }
  }

  /** The cut of what is behind a first character that is no delimiter, moved back to the whole string. */
  lemma CutsBehind(s: string, d: char, n: nat)
    requires n <= |s| && !Pending(s[..n]) && forall i | i < n :: !UnescapedAt(s, d, i)
    requires SplitOnce(s, d) == Shift(s[..n], SplitOnce(s[n..], d))
    requires SplitOnce(s[n..], d).Some? <==> exists i :: UnescapedAt(s[n..], d, i)
    requires SplitOnce(s[n..], d).Some? ==>
               var (l, r) := SplitOnce(s[n..], d).value;
               UnescapedAt(s[n..], d, |l|) && l == s[n..][..|l|] && r == s[n..][|l| + 1..]
               && forall i | i < |l| :: !UnescapedAt(s[n..], d, i)
    ensures SplitOnce(s, d).Some? <==> exists i :: UnescapedAt(s, d, i)
    ensures SplitOnce(s, d).Some? ==>
              var (l, r) := SplitOnce(s, d).value;
              UnescapedAt(s, d, |l|) && l == s[..|l|] && r == s[|l| + 1..] && forall i | i < |l| :: !UnescapedAt(s, d, i)
  {
    hide SplitOnce;
    forall i | i >= n ensures UnescapedAt(s, d, i) <==> UnescapedAt(s[n..], d, i - n) { UnescapedBehind(s, d, n, i); }
    if SplitOnce(s[n..], d).Some? {
      var (l, r) := SplitOnce(s[n..], d).value;
      assert s[n..][..|l|] == s[n..n + |l|] && s[..n] + l == s[..n + |l|] && s[n..][|l| + 1..] == s[n + |l| + 1..];
      UnescapedBehind(s, d, n, n + |l|);
      hide UnescapedAt;
      assert UnescapedAt(s, d, n + |l|);
      forall i | i < n + |l| ensures !UnescapedAt(s, d, i) {
        if i >= n { assert !UnescapedAt(s[n..], d, i - n); }
      }
    }
    if i :| UnescapedAt(s, d, i) { assert UnescapedAt(s[n..], d, i - n); }
  }

  lemma FirstCharacter(s: string, n: nat)
    requires s != [] && n == (if s[0] == '\\' then 2 else 1) && n <= |s|
    ensures !Pending(s[..n]) && (n == 2 ==> Pending(s[..1]))
  {
    assert s[..1] == [s[0]] && [s[0]][..0] == [] && s[..n][..n - 1] == s[..n - 1] && s[..0] == [];
    assert Pending(s[..1]) <==> s[0] == '\\' by { assert Pending([s[0]]) <==> s[0] == '\\' && !Pending([]); }
  }
}
