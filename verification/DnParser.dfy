/** `parse_name_string` with the string branch of `parse_name`, taking (key, value) before the OID lookup. */
module DnParser {
  import opened Bytes
  import opened Text
  import opened Dn

  datatype DnError = LacksEquals

  type Pairs = seq<(string, string)>

  /** `s.split(d)`. */
  function SplitPlain(s: string, d: char): (r: seq<string>)
    ensures r != []
  {
    if s == [] then [[]]
    else if s[0] == d then [[]] + SplitPlain(s[1..], d)
    else Prepend(s[0], SplitPlain(s[1..], d))
  }

  function NonEmpty(pieces: seq<string>): seq<string> {
    if pieces == [] then []
    else if pieces[0] == [] then NonEmpty(pieces[1..])
    else [pieces[0]] + NonEmpty(pieces[1..])
  }

  function ParsePiece(piece: string): Result<(string, string), DnError> {
    var cut := SplitOnce(piece, '=');
    if cut.None? then Failure(LacksEquals)
    else Success((Strip(cut.value.0), Unescape(Strip(cut.value.1))))
  }

  function ParsePieces(pieces: seq<string>): Result<Pairs, DnError> {
    if pieces == [] then Success([])
    else
      var init :- ParsePieces(pieces[..|pieces| - 1]);
      var p :- ParsePiece(pieces[|pieces| - 1]);
      Success(init + [p])
  }

  /** The slash form takes no escapes; the comma form does. */
  function Pieces(value: string): seq<string> {
    if value != [] && value[0] == '/' then NonEmpty(SplitPlain(value, '/')) else SplitUnescaped(value, ',')
  }

  function ParseDn(value: string): Result<Pairs, DnError> {
    var text := Strip(value);
    if text == [] then Success([]) else ParsePieces(Pieces(text))
  }

  method ParseNameString(value: string) returns (r: Result<Pairs, DnError>)
    ensures r == ParsePieces(Pieces(value))
  {
    hide Unescape, Strip, SplitOnce, SplitUnescaped, SplitPlain, NonEmpty;
    var pieces: seq<string>;
    if value != [] && value[0] == '/' {
      pieces := NonEmpty(SplitPlain(value, '/'));
    } else {
      pieces := SplitAtUnescaped(value, ',');
    }
    var attrs: Pairs := [];
    for i := 0 to |pieces|
      invariant ParsePieces(pieces[..i]) == Success(attrs)
    {
      assert pieces[..i + 1][..i] == pieces[..i];
      var keyValue := SplitOnceUnescaped(pieces[i], '=');
      if keyValue.None? {
        FailureLasts(pieces, i + 1);
        return Failure(LacksEquals);
      }
      var (key, rawValue) := keyValue.value;
      var unescaped := UnescapeDnValue(Strip(rawValue));
      attrs := attrs + [(Strip(key), unescaped)];
    }
    assert pieces[..|pieces|] == pieces;
    r := Success(attrs);
  }

  lemma {:induction false} FailureLasts(pieces: seq<string>, n: nat)
    requires n <= |pieces| && ParsePieces(pieces[..n]).Failure?
    ensures ParsePieces(pieces) == Failure(LacksEquals)
    decreases |pieces| - n
  {
    if n < |pieces| {
      assert pieces[..n + 1][..n] == pieces[..n];
      FailureLasts(pieces, n + 1);
    } else {
      assert pieces[..n] == pieces;
      match ParsePieces(pieces).error case LacksEquals =>
    }
  }

  // ---- the inverse printer ----

  /** For the inner level: every backslash doubled. */
  function Doubled(v: string): string {
    if v == [] then [] else (if v[0] == '\\' then ['\\', '\\'] else [v[0]]) + Doubled(v[1..])
  }

  /** The inner level also shields white space in front, which would be stripped. */
  function Inner(v: string): string {
    if v != [] && IsSpace(v[0]) then ['\\'] + Doubled(v) else Doubled(v)
  }

  /** For the outer level: backslash and comma escaped. */
  function Outer(p: string): string {
    if p == [] then [] else (if p[0] == '\\' || p[0] == ',' then ['\\', p[0]] else [p[0]]) + Outer(p[1..])
  }

  function PrintPair(p: (string, string)): string {
    Outer(p.0 + (['='] + Inner(p.1)))
  }

  /** The comma form: both levels of escapes are undone by the parser, so both are applied. */
  function PrintDn(pairs: Pairs): string {
    if pairs == [] then []
    else if |pairs| == 1 then PrintPair(pairs[0])
    else PrintPair(pairs[0]) + ([','] + PrintDn(pairs[1..]))
  }

  predicate KeyOk(k: string) {
    IsStripped(k) && '=' !in k && '\\' !in k
  }

  /** A value the string form can carry: anything that does not end in white space. */
  predicate ValueOk(v: string) {
    v == [] || !IsSpace(v[|v| - 1])
  }

  predicate Printable(pairs: Pairs) {
    && (forall i | 0 <= i < |pairs| :: KeyOk(pairs[i].0) && ValueOk(pairs[i].1))
    && (pairs != [] && pairs[0].0 != [] ==> pairs[0].0[0] != '/')
  }

  lemma {:induction false} UnescapeDoubled(v: string)
    ensures Unescape(Doubled(v)) == v
  {
    if v != [] {
      UnescapeDoubled(v[1..]);
      var s := Doubled(v);
      if v[0] == '\\' {
        assert s == ['\\', '\\'] + Doubled(v[1..]) && s[2..] == Doubled(v[1..]);
      } else {
        assert s == [v[0]] + Doubled(v[1..]) && s[1..] == Doubled(v[1..]);
      }
      assert v == [v[0]] + v[1..];
    }
  }

  lemma {:induction false} DoubledEnds(v: string)
    requires v != []
    ensures Doubled(v) != [] && Doubled(v)[|Doubled(v)| - 1] == v[|v| - 1] && Doubled(v)[0] == v[0]
  {
    if |v| > 1 { DoubledEnds(v[1..]); }
  }

  lemma MarksAreNotSpace()
    ensures !IsSpace('\\') && !IsSpace('=') && !IsSpace(',')
  {
  }

  lemma InnerIsUndone(v: string)
    requires ValueOk(v)
    ensures IsStripped(Inner(v)) && Unescape(Inner(v)) == v
  {
    assert Doubled([]) == [];
    hide IsSpace, Doubled, Unescape;
    MarksAreNotSpace();
    if v != [] {
      DoubledEnds(v);
      if IsSpace(v[0]) { ShieldedIsUndone(v); }
    }
    UnescapeDoubled(v);
  }

  lemma ShieldedIsUndone(v: string)
    requires v != [] && v[0] != '\\'
    ensures Unescape(['\\'] + Doubled(v)) == v
  {
    DoubledHead(v);
    UnescapeDoubled(v[1..]);
    var s := ['\\'] + Doubled(v);
    assert s[1] == v[0] && s[2..] == Doubled(v[1..]);
    assert v == [v[0]] + v[1..];
  }

  lemma DoubledHead(v: string)
    requires v != [] && v[0] != '\\'
    ensures Doubled(v) == [v[0]] + Doubled(v[1..])
  {
  }

  lemma {:induction false} OuterIsUndone(p: string, t: string)
    ensures SplitUnescaped(Outer(p) + t, ',') == Continue(p, SplitUnescaped(t, ','))
  {
    if p == [] {
      ContinueEmpty(SplitUnescaped(t, ','));
      assert Outer(p) + t == t;
    } else {
      hide SplitUnescaped, Continue, Outer;
      OuterIsUndone(p[1..], t);
      var rest := Outer(p[1..]) + t;
      OuterCons(p, t);
      SplitHead(p[0], rest);
      PrependContinue(p, SplitUnescaped(t, ','));
    }
  }

  lemma OuterCons(p: string, t: string)
    requires p != []
    ensures Outer(p) + t == (if p[0] == '\\' || p[0] == ',' then ['\\', p[0]] else [p[0]]) + (Outer(p[1..]) + t)
  {
  }

  lemma SplitHead(c: char, rest: string)
    ensures SplitUnescaped(['\\', c] + rest, ',') == Prepend(c, SplitUnescaped(rest, ','))
    ensures c != '\\' && c != ',' ==> SplitUnescaped([c] + rest, ',') == Prepend(c, SplitUnescaped(rest, ','))
  {
    assert (['\\', c] + rest)[2..] == rest && ([c] + rest)[1..] == rest;
  }

  lemma PrependContinue(p: string, pieces: seq<string>)
    requires p != [] && pieces != []
    ensures Prepend(p[0], Continue(p[1..], pieces)) == Continue(p, pieces)
  {
    assert [p[0]] + (p[1..] + pieces[0]) == p + pieces[0];
    assert Continue(p[1..], pieces)[1..] == pieces[1..];
  }

  lemma {:induction false} CutAfterKey(k: string, w: string)
    requires '=' !in k && '\\' !in k
    ensures SplitOnce(k + (['='] + w), '=') == Some((k, w))
  {
    var s := k + (['='] + w);
    if k == [] {
      assert s == ['='] + w && s[1..] == w;
    } else {
      assert k[0] in k && forall c <- k[1..] :: c in k;
      CutAfterKey(k[1..], w);
      assert s[1..] == k[1..] + (['='] + w) && s[..1] + k[1..] == k;
    }
  }

  function PieceOf(p: (string, string)): string {
    p.0 + (['='] + Inner(p.1))
  }

  function PiecesOf(pairs: Pairs): seq<string> {
    seq(|pairs|, i requires 0 <= i < |pairs| => PieceOf(pairs[i]))
  }

  lemma {:induction false} PrintedPieces(pairs: Pairs)
    requires pairs != []
    ensures SplitUnescaped(PrintDn(pairs), ',') == PiecesOf(pairs)
  {
    var piece := PieceOf(pairs[0]);
    if |pairs| == 1 {
      OuterIsUndone(piece, []);
      assert Outer(piece) + [] == Outer(piece) && piece + [] == piece;
    } else {
      var tail := [','] + PrintDn(pairs[1..]);
      OuterIsUndone(piece, tail);
      PrintedPieces(pairs[1..]);
      assert tail[1..] == PrintDn(pairs[1..]) && piece + [] == piece;
      assert PiecesOf(pairs) == [piece] + PiecesOf(pairs[1..]);
    }
  }

  lemma {:induction false} PiecesParse(pairs: Pairs)
    requires forall i | 0 <= i < |pairs| :: KeyOk(pairs[i].0) && ValueOk(pairs[i].1)
    ensures ParsePieces(PiecesOf(pairs)) == Success(pairs)
  {
    if pairs == [] {
      assert PiecesOf(pairs) == [];
    } else {
      var init, last := pairs[..|pairs| - 1], pairs[|pairs| - 1];
      PiecesParse(init);
      PieceParses(last);
      hide *;
      ParseSnoc(PiecesOf(init), PieceOf(last), init, last);
      PiecesSnoc(init, last);
      assert pairs == init + [last];
    }
  }

  lemma PiecesSnoc(init: Pairs, last: (string, string))
    ensures PiecesOf(init + [last]) == PiecesOf(init) + [PieceOf(last)]
  {
  }

  lemma ParseSnoc(pieces: seq<string>, piece: string, pairs: Pairs, p: (string, string))
    requires ParsePieces(pieces) == Success(pairs) && ParsePiece(piece) == Success(p)
    ensures ParsePieces(pieces + [piece]) == Success(pairs + [p])
  {
    var all := pieces + [piece];
    assert all[..|all| - 1] == pieces;
  }

  lemma PieceParses(p: (string, string))
    requires KeyOk(p.0) && ValueOk(p.1)
    ensures ParsePiece(PieceOf(p)) == Success(p)
  {
    hide Strip, IsSpace, Inner;
    CutAfterKey(p.0, Inner(p.1));
    InnerIsUndone(p.1);
    StripShape(p.0);
    StripShape(Inner(p.1));
  }

  /** The printed string has no outer white space and is never in slash form. */
  lemma {:induction false} PrintedEnds(pairs: Pairs)
    requires pairs != [] && Printable(pairs)
    ensures var s := PrintDn(pairs); s != [] && IsStripped(s) && s[0] != '/'
  {
    PrintedPairEnds(pairs[0]);
    if |pairs| > 1 {
      var rest := pairs[1..];
      assert forall i | 0 <= i < |rest| :: rest[i] == pairs[i + 1];
      PrintedLast(rest);
    }
  }

  lemma {:induction false} PrintedLast(pairs: Pairs)
    requires pairs != [] && forall i | 0 <= i < |pairs| :: KeyOk(pairs[i].0) && ValueOk(pairs[i].1)
    ensures PrintDn(pairs) != [] && !IsSpace(PrintDn(pairs)[|PrintDn(pairs)| - 1])
  {
    hide PrintPair, IsSpace, KeyOk, ValueOk;
    PrintedPairEnds(pairs[0]);
    if |pairs| > 1 {
      assert forall i | 0 <= i < |pairs| - 1 :: pairs[1..][i] == pairs[i + 1];
      PrintedLast(pairs[1..]);
    }
  }

  lemma PrintedPairEnds(p: (string, string))
    requires KeyOk(p.0) && ValueOk(p.1)
    ensures var s := PrintPair(p);
            && s != [] && !IsSpace(s[0]) && !IsSpace(s[|s| - 1])
            && (s[0] == '/' ==> p.0 != [] && p.0[0] == '/')
  {
    hide IsSpace, Inner, Outer;
    var piece := PieceOf(p);
    MarksAreNotSpace();
    InnerIsUndone(p.1);
    OuterEnds(piece);
    assert piece[0] == if p.0 == [] then '=' else p.0[0];
    assert piece[|piece| - 1] == if Inner(p.1) == [] then '=' else Inner(p.1)[|Inner(p.1)| - 1];
  }

  lemma {:induction false} OuterEnds(p: string)
    requires p != []
    ensures Outer(p) != [] && Outer(p)[|Outer(p)| - 1] == p[|p| - 1]
    ensures Outer(p)[0] == if p[0] == ',' then '\\' else p[0]
  {
    if |p| > 1 { OuterEnds(p[1..]); }
  }

  /**
   Print/parse round trip, for every list of pairs whose keys have no outer white space, `=` or backslash
   and whose values do not end in white space (and whose first key does not start with a slash).
  */
  lemma DnRoundTrip(pairs: Pairs)
    requires Printable(pairs)
    ensures ParseDn(PrintDn(pairs)) == Success(pairs)
  {
    if pairs != [] {
      PrintedEnds(pairs);
      StripShape(PrintDn(pairs));
      PrintedPieces(pairs);
      PiecesParse(pairs);
    } else {
      StripShape([]);
    }
  }

  // ---- when parsing fails ----

  /** Parsing works piece by piece. */
  lemma {:induction false} ParsesEach(pieces: seq<string>)
    ensures ParsePieces(pieces).Success? <==> forall i | 0 <= i < |pieces| :: ParsePiece(pieces[i]).Success?
    ensures ParsePieces(pieces).Success? ==>
              var pairs := ParsePieces(pieces).value;
              |pairs| == |pieces| && forall i | 0 <= i < |pieces| :: ParsePiece(pieces[i]) == Success(pairs[i])
  {
    if pieces != [] {
      hide ParsePiece;
      ParsesEach(pieces[..|pieces| - 1]);
    }
  }

  /** A DN string is refused if and only if some piece of it holds no unescaped `=`. */
  lemma ParsingFails(value: string)
    ensures ParseDn(value) == Failure(LacksEquals) <==>
            Strip(value) != [] && exists p <- Pieces(Strip(value)) :: LacksUnescaped(p, '=')
    ensures ParseDn(value).Failure? ==> ParseDn(value) == Failure(LacksEquals)
  {
    hide Strip, Pieces, ParsePiece, UnescapedAt, ParsePieces;
    var pieces := Pieces(Strip(value));
    ParsesEach(pieces);
    OneError(ParseDn(value));
    forall p ensures ParsePiece(p).Failure? <==> LacksUnescaped(p, '=') { PieceFails(p); }
    if i :| 0 <= i < |pieces| && ParsePiece(pieces[i]).Failure? {
      assert pieces[i] in pieces && LacksUnescaped(pieces[i], '=');
    }
    if p :| p in pieces && LacksUnescaped(p, '=') {
      var i :| 0 <= i < |pieces| && pieces[i] == p;
      assert ParsePiece(pieces[i]).Failure?;
    }
  }

  ghost predicate LacksUnescaped(s: string, d: char) {
    forall i :: !UnescapedAt(s, d, i)
  }

  lemma PieceFails(p: string)
    ensures ParsePiece(p).Failure? <==> LacksUnescaped(p, '=')
  {
    hide SplitOnce, UnescapedAt;
    CutsAtFirstUnescaped(p, '=');
  }

  lemma OneError(r: Result<Pairs, DnError>)
    ensures r.Failure? ==> r == Failure(LacksEquals)
  {
    if r.Failure? { match r.error case LacksEquals => }
  }

  /**
   What a piece with an unescaped `=` gives: the first one cuts it; the key is what stands before between white
   space, escapes and all; the value is what stands behind between white space, unescaped.
  */
  lemma PieceMeans(piece: string, i: int, a: string, key: string, b: string, c: string, raw: string, d: string)
    requires UnescapedAt(piece, '=', i) && forall j | j < i :: !UnescapedAt(piece, '=', j)
    requires piece[..i] == a + (key + b) && AllSpace(a) && AllSpace(b) && IsStripped(key)
    requires piece[i + 1..] == c + (raw + d) && AllSpace(c) && AllSpace(d) && IsStripped(raw)
    ensures ParsePiece(piece) == Success((key, Unescape(raw)))
  {
    hide Strip, Unescape, SplitOnce, UnescapedAt, IsSpace;
    CutsAtFirstUnescaped(piece, '=');
    var (l, r) := SplitOnce(piece, '=').value;
    assert UnescapedAt(piece, '=', |l|) && UnescapedAt(piece, '=', i) && |l| == i;
    StripDropsSpace(a, key, b);
    StripDropsSpace(c, raw, d);
  }

  /** White space around a whole DN string is dropped. */
  lemma OuterSpaceIsDropped(a: string, value: string, b: string)
    requires AllSpace(a) && AllSpace(b) && IsStripped(value)
    ensures ParseDn(a + (value + b)) == if value == [] then Success([]) else ParsePieces(Pieces(value))
  {
    hide Strip, ParsePieces, Pieces;
    StripDropsSpace(a, value, b);
  }

  /** The segments put back with the delimiter between them. */
  function Rejoin(pieces: seq<string>, d: char): string
    requires pieces != []
  {
    if |pieces| == 1 then pieces[0] else pieces[0] + ([d] + Rejoin(pieces[1..], d))
  }

  /** The slash form is cut at every slash and nowhere else, and what is left out are the empty segments. */
  lemma SlashCuts(s: string, t: seq<string>, u: seq<string>)
    ensures Rejoin(SplitPlain(s, '/'), '/') == s
    ensures forall i | 0 <= i < |SplitPlain(s, '/')| :: '/' !in SplitPlain(s, '/')[i]
    ensures NonEmpty(t + u) == NonEmpty(t) + NonEmpty(u) && NonEmpty([s]) == if s == [] then [] else [s]
  {
    PlainRejoins(s, '/');
    forall i | 0 <= i < |SplitPlain(s, '/')| ensures '/' !in SplitPlain(s, '/')[i] {
      PlainPiecesLackDelimiter(s, '/', i);
    }
    NonEmptyConcat(t, u);
    assert [s][1..] == [];
  }

  lemma {:induction false} PlainRejoins(s: string, d: char)
    ensures Rejoin(SplitPlain(s, d), d) == s
  {
    if s != [] {
      PlainRejoins(s[1..], d);
      var rest := SplitPlain(s[1..], d);
      assert s == [s[0]] + s[1..];
      if s[0] == d {
        assert ([[]] + rest)[1..] == rest;
      } else {
        assert Prepend(s[0], rest)[1..] == rest[1..];
        assert |rest| > 1 ==> ([s[0]] + rest[0]) + ([d] + Rejoin(rest[1..], d)) == [s[0]] + Rejoin(rest, d);
      }
    }
  }

  lemma {:induction false} NonEmptyConcat(t: seq<string>, u: seq<string>)
    ensures NonEmpty(t + u) == NonEmpty(t) + NonEmpty(u)
  {
    if t == [] {
      assert t + u == u;
    } else {
      assert (t + u)[1..] == t[1..] + u;
      NonEmptyConcat(t[1..], u);
    }
  }

  // ---- white space around keys ----

  /** A pair printed with white space before and behind its key. */
  function PaddedPiece(p: (string, string), pad: (string, string)): string {
    (pad.0 + (p.0 + pad.1)) + (['='] + Inner(p.1))
  }

  function PaddedPieces(pairs: Pairs, pads: Pairs): seq<string>
    requires |pads| == |pairs|
  {
    seq(|pairs|, i requires 0 <= i < |pairs| => PaddedPiece(pairs[i], pads[i]))
  }

  function PrintPadded(pairs: Pairs, pads: Pairs): string
    requires |pads| == |pairs|
  {
    if pairs == [] then []
    else if |pairs| == 1 then Outer(PaddedPiece(pairs[0], pads[0]))
    else Outer(PaddedPiece(pairs[0], pads[0])) + ([','] + PrintPadded(pairs[1..], pads[1..]))
  }

  predicate Pads(pads: Pairs) {
    forall i | 0 <= i < |pads| :: AllSpace(pads[i].0) && AllSpace(pads[i].1)
  }

  lemma {:induction false} PaddedSplit(pairs: Pairs, pads: Pairs)
    requires |pads| == |pairs| && pairs != []
    ensures SplitUnescaped(PrintPadded(pairs, pads), ',') == PaddedPieces(pairs, pads)
  {
    var piece := PaddedPiece(pairs[0], pads[0]);
    hide SplitUnescaped, PaddedPiece, Outer;
    if |pairs| == 1 {
      OuterAlone(piece);
    } else {
      var rest := PrintPadded(pairs[1..], pads[1..]);
      OuterIsUndone(piece, [','] + rest);
      PaddedSplit(pairs[1..], pads[1..]);
      SplitAtComma(rest);
      assert piece + [] == piece;
      assert PaddedPieces(pairs, pads) == [piece] + PaddedPieces(pairs[1..], pads[1..]);
    }
  }

  lemma SplitAtComma(rest: string)
    ensures SplitUnescaped([','] + rest, ',') == [[]] + SplitUnescaped(rest, ',')
  {
    assert ([','] + rest)[1..] == rest;
  }

  lemma PaddedParses(p: (string, string), pad: (string, string))
    requires KeyOk(p.0) && ValueOk(p.1) && AllSpace(pad.0) && AllSpace(pad.1)
    ensures ParsePiece(PaddedPiece(p, pad)) == Success(p)
  {
    hide Strip, Inner, IsSpace;
    var key := pad.0 + (p.0 + pad.1);
    SpaceIsPlain(pad.0);
    SpaceIsPlain(pad.1);
    CutAfterKey(key, Inner(p.1));
    StripDropsSpace(pad.0, p.0, pad.1);
    InnerIsUndone(p.1);
    StripShape(Inner(p.1));
  }

  lemma SpaceIsPlain(s: string)
    requires AllSpace(s)
    ensures '=' !in s && '\\' !in s && ',' !in s && '/' !in s
  {
    MarksAreNotSpace();
    SlashIsNotSpace();
  }

  /** White space in front of a piece changes nothing. */
  lemma SpaceInFrontOfPiece(w: string, piece: string)
    requires AllSpace(w)
    ensures ParsePiece(w + piece) == ParsePiece(piece)
  {
    hide Strip, SplitOnce, IsSpace, Unescape;
    SpaceIsPlain(w);
    CutBehind(w, piece);
    if SplitOnce(piece, '=').Some? { StripBehind(w, SplitOnce(piece, '=').value.0); }
  }

  lemma {:induction false} CutBehind(w: string, s: string)
    requires '=' !in w && '\\' !in w
    ensures SplitOnce(w + s, '=') == Shift(w, SplitOnce(s, '='))
  {
    if w == [] {
      assert w + s == s;
      if SplitOnce(s, '=').Some? { assert [] + SplitOnce(s, '=').value.0 == SplitOnce(s, '=').value.0; }
    } else {
      assert w[0] in w && forall c <- w[1..] :: c in w;
      assert (w + s)[1..] == w[1..] + s && (w + s)[..1] == [w[0]];
      CutBehind(w[1..], s);
      if SplitOnce(s, '=').Some? {
        var l := SplitOnce(s, '=').value.0;
        assert [w[0]] + (w[1..] + l) == w + l;
      }
    }
  }

  lemma StripBehind(w: string, s: string)
    requires AllSpace(w)
    ensures Strip(w + s) == Strip(s)
  {
    StripLeftDrops(w, s);
  }

  /** Parsing is blind to white space around the whole string that ends in none. */
  lemma ParsesStripped(s: string)
    requires s != [] && !IsSpace(s[|s| - 1]) && Strip(s) != [] && Strip(s)[0] != '/'
    ensures ParseDn(s) == ParsePieces(SplitUnescaped(s, ','))
  {
    hide *;
    var w, b := StripParts(s);
    var text := Strip(s);
    NoSpaceBehind(w + text, b);
    assert s == (w + text) + b && (w + text) + [] == w + text;
    SpaceIsPlain(w);
    PlainPrefixSplits(w, text);
    var pieces := SplitUnescaped(text, ',');
    SpaceInFrontOfPiece(w, pieces[0]);
    ContinueParts(w, pieces);
    FirstPieceOnly(Continue(w, pieces), pieces);
    CommaForm(s, text);
  }

  lemma ContinueParts(w: string, pieces: seq<string>)
    requires pieces != []
    ensures var c := Continue(w, pieces); c != [] && c[0] == w + pieces[0] && c[1..] == pieces[1..]
  {
  }

  lemma NoSpaceBehind(s: string, b: string)
    requires AllSpace(b) && s + b != [] && !IsSpace((s + b)[|s + b| - 1])
    ensures b == []
  {
    hide IsSpace;
    LastIn(s, b);
  }

  lemma LastIn(s: string, b: string)
    ensures b != [] ==> (s + b)[|s + b| - 1] in b
  {
    if b != [] { assert (s + b)[|s + b| - 1] == b[|b| - 1]; }
  }

  lemma FirstPieceOnly(a: seq<string>, b: seq<string>)
    requires a != [] && b != [] && a[1..] == b[1..] && ParsePiece(a[0]) == ParsePiece(b[0])
    ensures ParsePieces(a) == ParsePieces(b)
  {
    hide ParsePiece;
    assert forall i | 1 <= i < |a| :: a[i] == a[1..][i - 1] && b[i] == b[1..][i - 1];
    SameEach(a, b);
  }

  lemma {:induction false} SameEach(a: seq<string>, b: seq<string>)
    requires |a| == |b| && forall i | 0 <= i < |a| :: ParsePiece(a[i]) == ParsePiece(b[i])
    ensures ParsePieces(a) == ParsePieces(b)
  {
    if a != [] { SameEach(a[..|a| - 1], b[..|b| - 1]); }
  }

  lemma {:induction false} PaddedEnds(pairs: Pairs, pads: Pairs)
    requires |pads| == |pairs| && pairs != []
    requires forall i | 0 <= i < |pairs| :: KeyOk(pairs[i].0) && ValueOk(pairs[i].1)
    ensures PrintPadded(pairs, pads) != [] && !IsSpace(PrintPadded(pairs, pads)[|PrintPadded(pairs, pads)| - 1])
  {
    hide IsSpace, Inner, Outer, KeyOk, ValueOk;
    var p := pairs[0];
    var piece := PaddedPiece(p, pads[0]);
    MarksAreNotSpace();
    InnerIsUndone(p.1);
    OuterEnds(piece);
    assert piece[|piece| - 1] == if Inner(p.1) == [] then '=' else Inner(p.1)[|Inner(p.1)| - 1];
    if |pairs| > 1 {
      assert forall i | 0 <= i < |pairs| - 1 :: pairs[1..][i] == pairs[i + 1];
      PaddedEnds(pairs[1..], pads[1..]);
    }
  }

  /** The first character that is no white space is that of the first key, or the equals sign. */
  lemma PaddedFront(pairs: Pairs, pads: Pairs)
    requires |pads| == |pairs| && pairs != [] && Printable(pairs) && Pads(pads)
    ensures var s := Strip(PrintPadded(pairs, pads)); s != [] && s[0] != '/'
  {
    var w, back := FrontOf(pairs[0], pads[0]);
    var rest := Outer(back) + (if |pairs| == 1 then [] else [','] + PrintPadded(pairs[1..], pads[1..]));
    hide *;
    PrintedFront(pairs, pads, w, back);
    OuterEnds(back);
    BackIsPlain(pairs[0], back);
    assert rest[0] == Outer(back)[0];
    StripFront(w, rest);
  }

  /** The white space a padded piece starts with, and what is behind it. */
  lemma FrontOf(p: (string, string), pad: (string, string)) returns (w: string, back: string)
    requires AllSpace(pad.0) && AllSpace(pad.1)
    ensures AllSpace(w) && PaddedPiece(p, pad) == w + back && back != []
    ensures back[0] == if p.0 == [] then '=' else p.0[0]
  {
    hide IsSpace, Inner;
    w := pad.0 + if p.0 == [] then pad.1 else [];
    back := (if p.0 == [] then [] else p.0 + pad.1) + (['='] + Inner(p.1));
    assert PaddedPiece(p, pad) == w + back;
  }

  lemma BackIsPlain(p: (string, string), back: string)
    requires KeyOk(p.0) && back != [] && back[0] == if p.0 == [] then '=' else p.0[0]
    ensures !IsSpace(back[0]) && back[0] != '\\'
    ensures !IsSpace(if back[0] == ',' then '\\' else back[0])
  {
    MarksAreNotSpace();
  }

  lemma PrintedFront(pairs: Pairs, pads: Pairs, w: string, back: string)
    requires |pads| == |pairs| && pairs != [] && AllSpace(w) && PaddedPiece(pairs[0], pads[0]) == w + back
    ensures PrintPadded(pairs, pads)
            == w + (Outer(back) + (if |pairs| == 1 then [] else [','] + PrintPadded(pairs[1..], pads[1..])))
  {
    hide Outer, IsSpace, PaddedPiece, AllSpace;
    SpaceIsPlain(w);
    OuterPlain(w, back);
  }

  lemma {:induction false} OuterPlain(w: string, t: string)
    requires ',' !in w && '\\' !in w
    ensures Outer(w + t) == w + Outer(t)
  {
    if w == [] {
      assert w + t == t;
    } else {
      assert w[0] in w && forall c <- w[1..] :: c in w;
      assert (w + t)[1..] == w[1..] + t;
      OuterPlain(w[1..], t);
      assert [w[0]] + (w[1..] + Outer(t)) == w + Outer(t);
    }
  }

  lemma StripFront(w: string, s: string)
    requires AllSpace(w) && s != [] && !IsSpace(s[0])
    ensures Strip(w + s) != [] && Strip(w + s)[0] == s[0]
  {
    StripBehind(w, s);
    StripRightShape(s);
    StripRightCons(s[0], s[1..]);
    assert s == [s[0]] + s[1..];
  }

  /**
   White space around keys does not matter: with any put before and behind each key, every printable list
   reads back as without.
  */
  lemma KeySpaceIsDropped(pairs: Pairs, pads: Pairs)
    requires Printable(pairs) && |pads| == |pairs| && Pads(pads)
    ensures ParseDn(PrintPadded(pairs, pads)) == Success(pairs)
  {
    if pairs == [] {
      StripShape([]);
    } else {
      hide Strip, SplitUnescaped, ParsePieces, IsSpace, PaddedPiece, PrintPadded, PaddedPieces, KeyOk, ValueOk;
      PaddedEnds(pairs, pads);
      PaddedFront(pairs, pads);
      ParsesStripped(PrintPadded(pairs, pads));
      PaddedSplit(pairs, pads);
      PaddedAllParse(pairs, pads);
    }
  }

  lemma PaddedAllParse(pairs: Pairs, pads: Pairs)
    requires |pads| == |pairs| && Pads(pads)
    requires forall i | 0 <= i < |pairs| :: KeyOk(pairs[i].0) && ValueOk(pairs[i].1)
    ensures ParsePieces(PaddedPieces(pairs, pads)) == Success(pairs)
  {
    hide ParsePieces, ParsePiece, KeyOk, ValueOk, PaddedPiece, AllSpace;
    var pieces := PaddedPieces(pairs, pads);
    forall i | 0 <= i < |pairs| ensures ParsePiece(pieces[i]) == Success(pairs[i]) {
      PaddedParses(pairs[i], pads[i]);
    }
    ParsesEach(pieces);
    var parsed := ParsePieces(pieces).value;
    forall i | 0 <= i < |pairs| ensures parsed[i] == pairs[i] {
      assert ParsePiece(pieces[i]) == Success(parsed[i]);
    }
    assert parsed == pairs;
  }

  // ---- what the string form can express ----

  lemma {:induction false} UnescapeKeepsLast(w: string)
    requires w != []
    ensures Unescape(w) != [] && Unescape(w)[|Unescape(w)| - 1] == w[|w| - 1]
  {
    if w[0] != '\\' {
      if |w| > 1 { UnescapeKeepsLast(w[1..]); }
    } else if |w| > 2 {
      UnescapeKeepsLast(w[2..]);
    }
  }

  lemma {:induction false} ParsedPairsShape(pieces: seq<string>, i: nat)
    requires ParsePieces(pieces).Success? && i < |ParsePieces(pieces).value|
    ensures IsStripped(ParsePieces(pieces).value[i].0) && ValueOk(ParsePieces(pieces).value[i].1)
  {
    var init, last := pieces[..|pieces| - 1], pieces[|pieces| - 1];
    if i < |ParsePieces(init).value| {
      ParsedPairsShape(init, i);
    } else {
      var (k, w) := SplitOnce(last, '=').value;
      StripShape(k);
      StripShape(w);
      if Strip(w) != [] { UnescapeKeepsLast(Strip(w)); }
    }
  }

  /**
   A value can be the value of some attribute of some DN string if and only if it does not end in white
   space: no escape protects white space at the end, because stripping comes before unescaping.
  */
  lemma ValuesExpressible(v: string)
    ensures (exists s: string, i: nat :: HasValue(s, i, v)) <==> ValueOk(v)
  {
    if ValueOk(v) {
      DnRoundTrip([("CN", v)]);
      assert HasValue(PrintDn([("CN", v)]), 0, v);
    }
    forall s: string, i: nat | HasValue(s, i, v) ensures ValueOk(v) {
      ParsedPairsShape(Pieces(Strip(s)), i);
    }
  }

  ghost predicate HasValue(s: string, i: nat, v: string) {
    ParseDn(s).Success? && i < |ParseDn(s).value| && ParseDn(s).value[i].1 == v
  }

  // ---- the slash form ----

  /** `/key=value/key=value`: one level of escapes, none of them for the slash. */
  function PrintSlash(pairs: Pairs): string {
    if pairs == [] then [] else ['/'] + (PieceOf(pairs[0]) + PrintSlash(pairs[1..]))
  }

  /** A value the slash form can carry. */
  predicate SlashValueOk(v: string) {
    ValueOk(v) && '/' !in v
  }

  predicate SlashPrintable(pairs: Pairs) {
    forall i | 0 <= i < |pairs| :: KeyOk(pairs[i].0) && '/' !in pairs[i].0 && SlashValueOk(pairs[i].1)
  }

  lemma {:induction false} DoubledAddsNoSlash(v: string)
    ensures '/' in Doubled(v) <==> '/' in v
  {
    if v != [] { DoubledAddsNoSlash(v[1..]); }
  }

  lemma PieceWithoutSlash(p: (string, string))
    requires '/' !in p.0 && '/' !in p.1
    ensures '/' !in PieceOf(p) && PieceOf(p) != []
  {
    DoubledAddsNoSlash(p.1);
  }

  lemma {:induction false} SplitPlainFirst(p: string, t: string)
    requires '/' !in p
    ensures SplitPlain(p + t, '/') == Continue(p, SplitPlain(t, '/'))
  {
    if p == [] {
      assert p + t == t;
      ContinueEmpty(SplitPlain(t, '/'));
    } else {
      assert p[0] in p && forall c <- p[1..] :: c in p;
      assert (p + t)[1..] == p[1..] + t;
      SplitPlainFirst(p[1..], t);
      PrependContinue(p, SplitPlain(t, '/'));
    }
  }

  lemma {:induction false} SlashPieces(pairs: Pairs)
    requires SlashPrintable(pairs)
    ensures SplitPlain(PrintSlash(pairs), '/') == [[]] + PiecesOf(pairs)
    ensures NonEmpty([[]] + PiecesOf(pairs)) == PiecesOf(pairs)
  {
    hide *;
    if pairs == [] {
      NoSlashPieces(pairs);
    } else {
      var piece, rest := PieceOf(pairs[0]), pairs[1..];
      SlashCons(pairs);
      PieceWithoutSlash(pairs[0]);
      SlashPieces(rest);
      SplitPlainFirst(piece, PrintSlash(rest));
      SplitAtSlash(piece + PrintSlash(rest));
      ContinueEmptyFirst(piece, PiecesOf(rest));
      NonEmptyKeeps(piece, PiecesOf(rest));
    }
  }

  lemma NoSlashPieces(pairs: Pairs)
    requires pairs == []
    ensures SplitPlain(PrintSlash(pairs), '/') == [[]] + PiecesOf(pairs)
    ensures NonEmpty([[]] + PiecesOf(pairs)) == PiecesOf(pairs)
  {
    assert PiecesOf(pairs) == [] && NonEmpty([[]]) == NonEmpty([[]][1..]);
  }

  lemma SlashCons(pairs: Pairs)
    requires pairs != [] && SlashPrintable(pairs)
    ensures SlashPrintable(pairs[1..]) && '/' !in pairs[0].0 && '/' !in pairs[0].1
    ensures PiecesOf(pairs) == [PieceOf(pairs[0])] + PiecesOf(pairs[1..])
    ensures PrintSlash(pairs) == ['/'] + (PieceOf(pairs[0]) + PrintSlash(pairs[1..]))
  {
    hide KeyOk, ValueOk, PieceOf;
    assert forall i | 0 <= i < |pairs| - 1 :: pairs[1..][i] == pairs[i + 1];
  }

  lemma SplitAtSlash(s: string)
    ensures SplitPlain(['/'] + s, '/') == [[]] + SplitPlain(s, '/')
  {
    assert (['/'] + s)[1..] == s;
  }

  lemma ContinueEmptyFirst(piece: string, rest: seq<string>)
    ensures Continue(piece, [[]] + rest) == [piece] + rest
  {
    assert ([[]] + rest)[1..] == rest && piece + [] == piece;
  }

  lemma NonEmptyKeeps(piece: string, rest: seq<string>)
    requires piece != []
    ensures NonEmpty([[]] + ([piece] + rest)) == [piece] + NonEmpty([[]] + rest)
  {
    assert ([[]] + ([piece] + rest))[1..] == [piece] + rest;
    assert ([piece] + rest)[1..] == rest && ([[]] + rest)[1..] == rest;
  }

  lemma {:induction false} SlashEnds(pairs: Pairs)
    requires pairs != [] && SlashPrintable(pairs)
    ensures PrintSlash(pairs)[0] == '/' && IsStripped(PrintSlash(pairs))
  {
    hide IsSpace, Inner;
    var p, s, rest := pairs[0], PrintSlash(pairs), pairs[1..];
    MarksAreNotSpace();
    SlashIsNotSpace();
    InnerIsUndone(p.1);
    if rest == [] {
      assert PrintSlash(rest) == [] && s == ['/'] + PieceOf(p);
      assert s[|s| - 1] == if Inner(p.1) == [] then '=' else Inner(p.1)[|Inner(p.1)| - 1];
    } else {
      assert forall i | 0 <= i < |rest| :: rest[i] == pairs[i + 1];
      SlashEnds(rest);
      assert s[|s| - 1] == PrintSlash(rest)[|PrintSlash(rest)| - 1];
    }
  }

  lemma SlashIsNotSpace()
    ensures !IsSpace('/')
  {
  }

  /** Print/parse round trip of the slash form: escapes are undone once there, and nothing may hold a slash. */
  lemma SlashRoundTrip(pairs: Pairs)
    requires SlashPrintable(pairs)
    ensures ParseDn(PrintSlash(pairs)) == Success(pairs)
    ensures pairs != [] ==> PrintSlash(pairs)[0] == '/'
  {
    hide IsSpace, ParsePieces, SplitPlain, NonEmpty;
    if pairs == [] {
      StripShape([]);
    } else {
      SlashEnds(pairs);
      StripShape(PrintSlash(pairs));
      SlashPieces(pairs);
      PiecesParse(pairs);
    }
  }

  lemma {:induction false} UnescapeKeepsChars(w: string, c: char)
    requires c in Unescape(w)
    ensures c in w
  {
    if w[0] != '\\' {
      if c != w[0] { UnescapeKeepsChars(w[1..], c); }
    } else if |w| > 1 && c != w[1] {
      UnescapeKeepsChars(w[2..], c);
    }
  }

  lemma {:induction false} PlainPiecesLackDelimiter(s: string, d: char, i: nat)
    requires i < |SplitPlain(s, d)|
    ensures d !in SplitPlain(s, d)[i]
  {
    if s != [] {
      if s[0] == d {
        if i > 0 { PlainPiecesLackDelimiter(s[1..], d, i - 1); }
      } else {
        PlainPiecesLackDelimiter(s[1..], d, i);
      }
    }
  }

  lemma {:induction false} NonEmptyIsPart(pieces: seq<string>)
    ensures forall p <- NonEmpty(pieces) :: p in pieces
  {
    if pieces != [] { NonEmptyIsPart(pieces[1..]); }
  }

  lemma {:induction false} ParsedValueFrom(pieces: seq<string>, i: nat, c: char)
    requires ParsePieces(pieces).Success? && i < |ParsePieces(pieces).value| && c in ParsePieces(pieces).value[i].1
    ensures exists p :: p in pieces && c in p
  {
    var init, last := pieces[..|pieces| - 1], pieces[|pieces| - 1];
    if i < |ParsePieces(init).value| {
      ParsedValueFrom(init, i, c);
    } else {
      SplitOnceParts(last, '=');
      var w := SplitOnce(last, '=').value.1;
      UnescapeKeepsChars(Strip(w), c);
      StripIsPart(w, c);
      assert last in pieces && c in last;
    }
  }

  lemma StripIsPart(s: string, c: char)
    requires c in Strip(s)
    ensures c in s
  {
    StripRightShape(StripLeft(s));
    assert c in StripLeft(s);
    StripLeftIsPart(s, c);
  }

  lemma {:induction false} StripLeftIsPart(s: string, c: char)
    requires c in StripLeft(s)
    ensures c in s
  {
    if s != [] && IsSpace(s[0]) { StripLeftIsPart(s[1..], c); }
  }

  /** The string is in slash form. */
  predicate IsSlashForm(s: string) {
    Strip(s) != [] && Strip(s)[0] == '/'
  }

  /**
   A value can be the value of some attribute of some DN string in slash form if and only if it holds no
   slash and does not end in white space: there is no escape for either.
  */
  lemma SlashValuesExpressible(v: string)
    ensures (exists s: string, i: nat :: IsSlashForm(s) && HasValue(s, i, v)) <==> SlashValueOk(v)
  {
    if SlashValueOk(v) {
      var pairs := [("CN", v)];
      SlashRoundTrip(pairs);
      SlashEnds(pairs);
      StripShape(PrintSlash(pairs));
      assert IsSlashForm(PrintSlash(pairs)) && HasValue(PrintSlash(pairs), 0, v);
    }
    forall s: string, i: nat | IsSlashForm(s) && HasValue(s, i, v) ensures SlashValueOk(v) {
      SlashValueShape(s, i, v);
    }
  }

  lemma SlashValueShape(s: string, i: nat, v: string)
    requires IsSlashForm(s) && HasValue(s, i, v)
    ensures SlashValueOk(v)
  {
    hide ParsePieces, SplitPlain, NonEmpty, Strip, IsSpace;
    var split := SplitPlain(Strip(s), '/');
    ParsedPairsShape(NonEmpty(split), i);
    if '/' in v {
      ParsedValueFrom(NonEmpty(split), i, '/');
      var p :| p in NonEmpty(split) && '/' in p;
      NonEmptyIsPart(split);
      var k :| 0 <= k < |split| && split[k] == p;
      PlainPiecesLackDelimiter(Strip(s), '/', k);
    }
  }

  // ---- escaping once ----

  /** A value that one level of escapes brings through: no outer white space, no backslash before the last character. */
  predicate SurvivesOnce(v: string) {
    IsStripped(v) && (v == [] || '\\' !in v[..|v| - 1])
  }

  lemma {:induction false} UnescapeFixedPoints(v: string)
    ensures |Unescape(v)| <= |v|
    ensures Unescape(v) == v <==> v == [] || '\\' !in v[..|v| - 1]
  {
    if v != [] {
      if v[0] != '\\' {
        UnescapeFixedPoints(v[1..]);
        if |v| > 1 {
          assert v[..|v| - 1] == [v[0]] + v[1..][..|v| - 2];
          assert v == [v[0]] + v[1..];
        }
      } else if |v| > 1 {
        UnescapeFixedPoints(v[2..]);
        assert v[..|v| - 1][0] == '\\';
      }
    }
  }

  lemma UnescapedStripIs(v: string)
    ensures Unescape(Strip(v)) == v <==> SurvivesOnce(v)
  {
    StripShape(v);
    StripLength(v);
    UnescapeFixedPoints(v);
    UnescapeFixedPoints(Strip(v));
  }

  /**
   Escaping backslash and comma once is not enough for this parser. The value read back has lost its outer
   white space and another level of escapes, so it is the value printed if and only if that one has no
   outer white space and no backslash before its last character.
  */
  lemma EscapingOnce(k: string, v: string)
    requires KeyOk(k) && (k != [] ==> k[0] != '/')
    ensures ParseDn(Outer(k + (['='] + v))) == Success([(k, Unescape(Strip(v)))])
    ensures ParseDn(Outer(k + (['='] + v))) == Success([(k, v)]) <==> SurvivesOnce(v)
  {
    hide IsSpace, Outer, Strip, Unescape, SplitUnescaped, SplitOnce, ParsePieces, SurvivesOnce, StripRight;
    var piece, kept := k + (['='] + v), k + (['='] + StripRight(v));
    OnceEscapedStrips(k, v);
    OuterAlone(kept);
    PlainPieceParses(k, StripRight(v));
    StripAfterRight(v);
    UnescapedStripIs(v);
  }

  /** Stripping the whole string takes away white space behind the value, and nothing else. */
  lemma OnceEscapedStrips(k: string, v: string)
    requires KeyOk(k) && (k != [] ==> k[0] != '/')
    ensures var kept := Outer(k + (['='] + StripRight(v)));
            Strip(Outer(k + (['='] + v))) == kept && kept != [] && kept[0] != '/'
  {
    hide IsSpace, Outer;
    var piece, kept := k + (['='] + v), k + (['='] + StripRight(v));
    MarksAreNotSpace();
    OuterEnds(piece);
    OuterEnds(kept);
    assert kept[0] == piece[0] == if k == [] then '=' else k[0];
    OuterStripsRight(k + ['='], v);
    assert (k + ['=']) + v == piece && (k + ['=']) + StripRight(v) == kept;
  }

  lemma {:induction false} OuterStripsRight(p: string, v: string)
    requires p != [] && !IsSpace(p[|p| - 1])
    ensures StripRight(Outer(p + v)) == Outer(p + StripRight(v))
  {
    hide IsSpace;
    MarksAreNotSpace();
    if v == [] {
      assert p + v == p;
      OuterEnds(p);
    } else {
      OuterEnds(p + v);
      assert (p + v)[|p + v| - 1] == v[|v| - 1];
      if IsSpace(v[|v| - 1]) {
        assert p + v == (p + v[..|v| - 1]) + [v[|v| - 1]];
        OuterSnoc(p + v[..|v| - 1], v[|v| - 1]);
        OuterStripsRight(p, v[..|v| - 1]);
      }
    }
  }

  lemma {:induction false} OuterSnoc(p: string, c: char)
    requires c != '\\' && c != ','
    ensures Outer(p + [c]) == Outer(p) + [c]
  {
    if p == [] {
      assert p + [c] == [c] && [c][1..] == [];
    } else {
      assert (p + [c])[1..] == p[1..] + [c];
      OuterSnoc(p[1..], c);
    }
  }

  lemma OuterAlone(p: string)
    ensures SplitUnescaped(Outer(p), ',') == [p]
  {
    OuterIsUndone(p, []);
    assert Outer(p) + [] == Outer(p) && p + [] == p;
  }

  lemma PlainPieceParses(k: string, v: string)
    requires KeyOk(k)
    ensures ParsePieces([k + (['='] + v)]) == Success([(k, Unescape(Strip(v)))])
  {
    hide Strip, Unescape, SplitOnce;
    var piece := k + (['='] + v);
    CutAfterKey(k, v);
    StripShape(k);
    var pieces := [piece];
    assert pieces[..|pieces| - 1] == [] && pieces[|pieces| - 1] == piece;
    assert ParsePieces([]) == Success([]) && ParsePiece(piece) == Success((k, Unescape(Strip(v))));
    assert [] + [(k, Unescape(Strip(v)))] == [(k, Unescape(Strip(v)))];
  }

  // ---- the printer of RFC 4514 ----

  /** Section 2.4 of RFC 4514, for one character that is first, last or neither in its value. */
  function RfcChar(c: char, first: bool, last: bool): string {
    if c == '\0' then ['\\', '0', '0']
    else if c in "\"+,;<>\\" || (c == ' ' && (first || last)) || (c == '#' && first) then ['\\', c]
    else [c]
  }

  function RfcEscape(v: string, first: bool): string {
    if v == [] then [] else RfcChar(v[0], first, |v| == 1) + RfcEscape(v[1..], false)
  }

  /** One attribute as RFC 4514 prints it. */
  function RfcPrint(k: string, v: string): string {
    k + (['='] + RfcEscape(v, true))
  }

  /** An attribute type that needs no escapes. */
  predicate RfcKey(k: string) {
    KeyOk(k) && ',' !in k && (k != [] ==> k[0] != '/')
  }

  /** The value after one level of escapes is gone: the two digits of an escaped NUL are all that is left of it. */
  function Denulled(v: string): string {
    if v == [] then [] else (if v[0] == '\0' then ['0', '0'] else [v[0]]) + Denulled(v[1..])
  }

  lemma {:induction false} DenulledShape(v: string)
    ensures '\0' !in Denulled(v)
    ensures '\0' !in v ==> Denulled(v) == v
  {
    if v != [] {
      DenulledShape(v[1..]);
      assert v == [v[0]] + v[1..];
    }
  }

  lemma SplitChar(c: char, first: bool, last: bool, rest: string)
    ensures SplitUnescaped(RfcChar(c, first, last) + rest, ',')
            == if c == '\0' then Prepend('0', Prepend('0', SplitUnescaped(rest, ',')))
               else Prepend(c, SplitUnescaped(rest, ','))
  {
    hide SplitUnescaped, RfcChar, Prepend;
    RfcCharCases(c, first, last);
    SplitHead(c, rest);
    if c == '\0' {
      SplitHead('0', ['0'] + rest);
      SplitHead('0', rest);
      assert ['\\', '0', '0'] + rest == ['\\', '0'] + (['0'] + rest);
    }
  }

  lemma RfcCharCases(c: char, first: bool, last: bool)
    ensures c == '\0' ==> RfcChar(c, first, last) == ['\\', '0', '0']
    ensures c != '\0' ==> RfcChar(c, first, last) == ['\\', c] || (RfcChar(c, first, last) == [c] && c != '\\' && c != ',')
  {
    assert "\"+,;<>\\"[6] == '\\' && "\"+,;<>\\"[2] == ',';
  }

  lemma {:induction false} RfcSplits(v: string, first: bool)
    ensures SplitUnescaped(RfcEscape(v, first), ',') == [Denulled(v)]
  {
    if v != [] {
      hide SplitUnescaped, RfcChar;
      RfcSplits(v[1..], false);
      SplitChar(v[0], first, |v| == 1, RfcEscape(v[1..], false));
      var tail := [Denulled(v[1..])];
      assert Prepend(v[0], tail) == [[v[0]] + tail[0]];
      assert Prepend('0', tail) == [['0'] + tail[0]];
      assert Prepend('0', Prepend('0', tail)) == [['0'] + (['0'] + tail[0])];
      assert ['0'] + (['0'] + tail[0]) == ['0', '0'] + tail[0];
    }
  }

  lemma {:induction false} PlainPrefixSplits(k: string, t: string)
    requires ',' !in k && '\\' !in k
    ensures SplitUnescaped(k + t, ',') == Continue(k, SplitUnescaped(t, ','))
  {
    if k == [] {
      ContinueEmpty(SplitUnescaped(t, ','));
      assert k + t == t;
    } else {
      assert k[0] in k && forall c <- k[1..] :: c in k;
      assert (k + t)[1..] == k[1..] + t;
      hide SplitUnescaped, Continue;
      PlainPrefixSplits(k[1..], t);
      SplitHead(k[0], k[1..] + t);
      PrependContinue(k, SplitUnescaped(t, ','));
      assert k + t == [k[0]] + (k[1..] + t);
    }
  }

  lemma {:induction false} RfcEnds(v: string, first: bool)
    requires v != [] && ValueOk(v)
    ensures RfcEscape(v, first) != [] && !IsSpace(RfcEscape(v, first)[|RfcEscape(v, first)| - 1])
  {
    if |v| > 1 {
      hide RfcChar;
      RfcEnds(v[1..], false);
    } else {
      assert RfcEscape(v[1..], false) == [];
    }
  }

  lemma RfcPrintEnds(k: string, v: string)
    requires RfcKey(k) && ValueOk(v)
    ensures var s := RfcPrint(k, v); s != [] && IsStripped(s) && s[0] != '/'
  {
    hide IsSpace, RfcEscape;
    MarksAreNotSpace();
    if v != [] { RfcEnds(v, true); } else { RfcEmpty(); }
    var s := RfcPrint(k, v);
    assert s[0] == if k == [] then '=' else k[0];
    assert s[|s| - 1] == if v == [] then '=' else RfcEscape(v, true)[|RfcEscape(v, true)| - 1];
  }

  lemma RfcEmpty()
    ensures RfcEscape([], true) == []
  {
  }

  /** What is read back of an attribute printed by RFC 4514 whose value does not end in white space. */
  lemma RfcReadsBack(k: string, v: string)
    requires RfcKey(k) && ValueOk(v)
    ensures ParseDn(RfcPrint(k, v)) == Success([(k, Unescape(Strip(Denulled(v))))])
  {
    hide IsSpace, Strip, Unescape, SplitUnescaped, SplitOnce, ParsePieces, RfcEscape, Denulled;
    RfcPrintEnds(k, v);
    StripShape(RfcPrint(k, v));
    RfcSplits(v, true);
    PlainPrefixSplits(k + ['='], RfcEscape(v, true));
    assert (k + ['=']) + RfcEscape(v, true) == RfcPrint(k, v);
    assert (k + ['=']) + Denulled(v) == k + (['='] + Denulled(v));
    assert Continue(k + ['='], [Denulled(v)]) == [(k + ['=']) + Denulled(v)];
    PlainPieceParses(k, Denulled(v));
  }

  /**
   Of the values RFC 4514 prints, the parser reads back exactly those without outer white space, without NUL,
   and without a backslash before the last character.
  */
  lemma RfcValuesSurvive(k: string, v: string)
    requires RfcKey(k)
    ensures ParseDn(RfcPrint(k, v)) == Success([(k, v)]) <==> SurvivesOnce(v) && '\0' !in v
  {
    hide ParsePieces, Strip, Unescape, RfcPrint, Denulled, SplitUnescaped, IsSpace;
    if !ValueOk(v) {
      if ParseDn(RfcPrint(k, v)) == Success([(k, v)]) { NeverAtTheEnd(RfcPrint(k, v), k, v); }
    } else {
      RfcReadsBack(k, v);
      DenulledShape(v);
      UnescapedStripIs(v);
      if '\0' in Unescape(Strip(Denulled(v))) {
        UnescapeKeepsChars(Strip(Denulled(v)), '\0');
        StripIsPart(Denulled(v), '\0');
      }
    }
  }

  lemma NeverAtTheEnd(s: string, k: string, v: string)
    requires ParseDn(s) == Success([(k, v)])
    ensures ValueOk(v)
  {
    assert HasValue(s, 0, v);
    ValuesExpressible(v);
  }

  /** A space in front is lost, escaped or not, and one behind leaves the backslash that escaped it. */
  lemma SpacesAreLost()
    ensures RfcPrint("CN", " a") == "CN=\\ a" && ParseDn("CN=\\ a") == ParseDn("CN= a") == Success([("CN", "a")])
    ensures RfcPrint("CN", "a ") == "CN=a\\ " && ParseDn("CN=a\\ ") == Success([("CN", "a\\")])
  {
    RfcOfSpaces();
    SpaceInFront();
    SpaceBehind();
  }

  lemma RfcOfSpaces()
    ensures RfcPrint("CN", " a") == "CN=\\ a" && RfcPrint("CN", "a ") == "CN=a\\ "
  {
    assert " a"[1..] == "a" && "a "[1..] == " " && "a"[1..] == [] && " "[1..] == [];
    assert RfcEscape("a", false) == "a" && RfcEscape(" ", false) == "\\ ";
    assert RfcEscape(" a", true) == "\\ a" && RfcEscape("a ", true) == "a\\ ";
  }

  lemma SpaceInFront()
    ensures ParseDn("CN=\\ a") == Success([("CN", "a")]) && ParseDn("CN= a") == Success([("CN", "a")])
  {
    hide *;
    CommonName();
    LetterStays();
    StripsOfSpaces();
    RfcOfSpaces();
    RfcReadsBack("CN", " a");
    PlainOuter();
    EscapingOnce("CN", " a");
  }

  lemma SpaceBehind()
    ensures ParseDn("CN=a\\ ") == Success([("CN", "a\\")])
  {
    hide *;
    CommonName();
    LetterStays();
    StripsOfSpaces();
    CommaForm("CN=a\\ ", "CN=a\\");
    PlainPrefixSplits("CN=a", "\\");
    assert "CN=a" + "\\" == "CN=a\\" && "CN" + (['='] + "a\\") == "CN=a\\";
    ContinueOne("CN=a", "\\");
    PlainPieceParses("CN", "a\\");
  }

  lemma CommaForm(value: string, text: string)
    requires Strip(value) == text && text != [] && text[0] != '/'
    ensures ParseDn(value) == ParsePieces(SplitUnescaped(text, ','))
  {
    hide Strip, ParsePieces, SplitUnescaped;
  }

  lemma ContinueOne(current: string, piece: string)
    ensures Continue(current, [piece]) == [current + piece]
  {
  }

  lemma CommonName()
    ensures RfcKey("CN") && KeyOk("CN") && ValueOk(" a") && "CN"[0] == 'C' && ',' !in "CN=a" && '\\' !in "CN=a"
  {
  }

  lemma LetterStays()
    ensures Denulled(" a") == " a" && Unescape("a") == "a" && Unescape("a\\") == "a\\"
    ensures SplitUnescaped("\\", ',') == ["\\"]
  {
    assert " a"[1..] == "a" && "a"[1..] == [] && "a\\"[1..] == "\\";
  }

  lemma StripsOfSpaces()
    ensures Strip(" a") == "a" && Strip("a\\") == "a\\" && Strip("CN=a\\ ") == "CN=a\\"
  {
    assert " a"[1..] == "a" && "CN=a\\ "[..5] == "CN=a\\";
  }

  lemma PlainOuter()
    ensures Outer("CN" + (['='] + " a")) == "CN= a"
  {
    var s := "CN= a";
    assert s[1..] == "N= a" && "N= a"[1..] == "= a" && "= a"[1..] == " a" && " a"[1..] == "a" && "a"[1..] == [];
    assert "CN" + (['='] + " a") == s;
    assert Outer("= a") == "= a";
  }
}
