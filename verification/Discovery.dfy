/**
 The way of a chain through the file system: the generator's numbered files, `discover_chains`, and the
 two bundles that must list the same certificates in the same order.
 */
module Discovery {
  import opened Bytes
  import opened Files
  import opened Text

  // ---- what the generator leaves in a chain directory ----

  function CertFiles(safes: seq<string>): seq<string> {
    seq(|safes|, i requires 0 <= i < |safes| => CertFile(i, safes[i]))
  }

  function KeyFiles(safes: seq<string>): seq<string> {
    seq(|safes|, i requires 0 <= i < |safes| => KeyFile(i, safes[i]))
  }

  const BUNDLE_FILES: seq<string> := ["all.pem", "chain.pem", "trust-anchor.pem", "metadata.json"]

  // ---- discover_chains, for one directory ----

  /** The matching files of a listing with their numbers, in listing order. */
  function Numbered(listing: seq<string>): seq<(nat, string)> {
    if listing == [] then []
    else
      var init, name := listing[..|listing| - 1], listing[|listing| - 1];
      var n := MatchCertFile(name);
      if n.Some? then Numbered(init) + [(n.value, name)] else Numbered(init)
  }

  function InsertByNumber(p: (nat, string), s: seq<(nat, string)>): seq<(nat, string)> {
    if s == [] || p.0 <= s[0].0 then [p] + s else [s[0]] + InsertByNumber(p, s[1..])
  }

  /** `numbered.sort(key=lambda p: p[0])`. */
  function SortByNumber(s: seq<(nat, string)>): seq<(nat, string)> {
    if s == [] then [] else InsertByNumber(s[0], SortByNumber(s[1..]))
  }

  function Names(s: seq<(nat, string)>): seq<string> {
    seq(|s|, i requires 0 <= i < |s| => s[i].1)
  }

  /** The certificate files in chain order, or None when the directory is skipped. */
  function Discover(listing: seq<string>): Option<seq<string>> {
    var numbered := Numbered(listing);
    if |numbered| < 2 then None else Some(Names(SortByNumber(numbered)))
  }

  method DiscoverChain(listing: seq<string>) returns (r: Option<(string, seq<string>, string)>)
    ensures r.Some? <==> Discover(listing).Some?
    ensures r.Some? ==> var (root, middle, leaf) := r.value; Discover(listing).value == [root] + middle + [leaf]
  {
    var numbered: seq<(nat, string)> := [];
    for i := 0 to |listing|
      invariant numbered == Numbered(listing[..i])
    {
      assert listing[..i + 1][..i] == listing[..i];
      var m := MatchCertFile(listing[i]);
      if m.Some? { numbered := numbered + [(m.value, listing[i])]; }
    }
    assert listing[..|listing|] == listing;
    if |numbered| < 2 { return None; }
    SortPermutes(numbered);
    numbered := SortByNumber(numbered);
    var certs := Names(numbered);
    var root, middle, leaf := certs[0], certs[1..|certs| - 1], certs[|certs| - 1];
    r := Some((root, middle, leaf));
  }

  // ---- order is recovered ----

  predicate SortedByNumber(s: seq<(nat, string)>) {
    forall i, j | 0 <= i < j < |s| :: s[i].0 <= s[j].0
  }

  lemma {:induction false} InsertPermutes(p: (nat, string), s: seq<(nat, string)>)
    ensures multiset(InsertByNumber(p, s)) == multiset{p} + multiset(s)
    ensures forall q <- InsertByNumber(p, s) :: q == p || q in s
  {
    if s != [] && p.0 > s[0].0 {
      InsertPermutes(p, s[1..]);
      assert s == [s[0]] + s[1..];
    }
  }

  lemma {:induction false} InsertKeepsSorted(p: (nat, string), s: seq<(nat, string)>)
    requires SortedByNumber(s)
    ensures SortedByNumber(InsertByNumber(p, s))
  {
    if s != [] && p.0 > s[0].0 {
      InsertPermutes(p, s[1..]);
      InsertKeepsSorted(p, s[1..]);
      var r := InsertByNumber(p, s[1..]);
      forall j | 0 <= j < |r| ensures s[0].0 <= r[j].0 {
        assert r[j] in r;
        if r[j] != p { var k :| 0 <= k < |s[1..]| && s[1..][k] == r[j]; assert s[k + 1] == r[j]; }
      }
      assert InsertByNumber(p, s) == [s[0]] + r;
    }
  }

  /** The sort returns a sorted permutation. */
  lemma {:induction false} SortPermutes(s: seq<(nat, string)>)
    ensures SortedByNumber(SortByNumber(s)) && multiset(SortByNumber(s)) == multiset(s)
    ensures |SortByNumber(s)| == |s|
  {
    if s != [] {
      SortPermutes(s[1..]);
      InsertKeepsSorted(s[0], SortByNumber(s[1..]));
      InsertPermutes(s[0], SortByNumber(s[1..]));
      assert s == [s[0]] + s[1..];
    }
    assert |multiset(SortByNumber(s))| == |multiset(s)|;
  }

  /** A sorted sequence with distinct numbers is determined by its elements. */
  lemma {:induction false} SortedIsUnique(a: seq<(nat, string)>, b: seq<(nat, string)>)
    requires multiset(a) == multiset(b) && SortedByNumber(a)
    requires forall i, j | 0 <= i < j < |b| :: b[i].0 < b[j].0
    ensures a == b
  {
    assert |multiset(a)| == |multiset(b)|;
    if a != [] {
      SmallestIsFirst(a, b);
      RemoveFirst(a);
      RemoveFirst(b);
      SortedIsUnique(a[1..], b[1..]);
    }
  }

  lemma SmallestIsFirst(a: seq<(nat, string)>, b: seq<(nat, string)>)
    requires multiset(a) == multiset(b) && SortedByNumber(a) && a != [] && b != []
    requires forall i, j | 0 <= i < j < |b| :: b[i].0 < b[j].0
    ensures a[0] == b[0]
  {
    assert a[0] in multiset(b) && b[0] in multiset(a);
    var k :| 0 <= k < |b| && b[k] == a[0];
    var l :| 0 <= l < |a| && a[l] == b[0];
    assert a[0].0 <= a[l].0;
  }

  lemma RemoveFirst(a: seq<(nat, string)>)
    requires a != []
    ensures multiset(a[1..]) == multiset(a) - multiset{a[0]}
  {
    assert a == [a[0]] + a[1..];
  }

  /** Every matching file is collected once, with its number, whatever the listing order. */
  lemma {:induction false} NumberedCounts(listing: seq<string>, p: (nat, string))
    ensures multiset(Numbered(listing))[p]
            == if MatchCertFile(p.1) == Some(p.0) then multiset(listing)[p.1] else 0
  {
    if listing != [] {
      NumberedCounts(listing[..|listing| - 1], p);
      assert listing == listing[..|listing| - 1] + [listing[|listing| - 1]];
    }
  }

  function Pairs(safes: seq<string>): seq<(nat, string)> {
    seq(|safes|, i requires 0 <= i < |safes| => (i, CertFile(i, safes[i])))
  }

  lemma {:induction false} NumberedPairs(safes: seq<string>)
    requires forall s <- safes :: s != []
    ensures Numbered(CertFiles(safes)) == Pairs(safes)
  {
    hide MatchCertFile, CertFile;
    if safes != [] {
      var init, last := safes[..|safes| - 1], safes[|safes| - 1];
      assert last in safes && forall s <- init :: s in safes;
      NumberedPairs(init);
      CertFileMatches(|init|, last);
      assert CertFiles(safes)[..|safes| - 1] == CertFiles(init);
      assert Pairs(safes) == Pairs(init) + [(|init|, CertFile(|init|, last))];
    }
  }

  /**
   Discovery in any directory: with fewer than two matching files it is skipped; otherwise the files found are
   those that match, as often as they are listed, in the order of their numbers.
  */
  lemma DiscoveryMeans(listing: seq<string>)
    ensures Discover(listing).None? <==> |Numbered(listing)| < 2
    ensures Discover(listing).Some? ==>
              var found := Discover(listing).value;
              && (forall f :: multiset(found)[f] == if MatchCertFile(f).Some? then multiset(listing)[f] else 0)
              && (forall i, j | 0 <= i < j < |found| ::
                    && MatchCertFile(found[i]).Some? && MatchCertFile(found[j]).Some?
                    && MatchCertFile(found[i]).value <= MatchCertFile(found[j]).value)
  {
    hide MatchCertFile;
    if Discover(listing).Some? {
      var sorted := SortByNumber(Numbered(listing));
      SortPermutes(Numbered(listing));
      forall p | p in sorted ensures MatchCertFile(p.1) == Some(p.0) {
        assert p in multiset(sorted);
        NumberedCounts(listing, p);
      }
      forall f ensures multiset(Names(sorted))[f] == if MatchCertFile(f).Some? then multiset(listing)[f] else 0 {
        NamesCount(sorted, f);
        if MatchCertFile(f).Some? { NumberedCounts(listing, (MatchCertFile(f).value, f)); }
      }
      assert forall i | 0 <= i < |sorted| :: sorted[i] in sorted;
    }
  }

  /** A name occurs as often as it does with the number it matches with. */
  lemma {:induction false} NamesCount(s: seq<(nat, string)>, f: string)
    requires forall p <- s :: MatchCertFile(p.1) == Some(p.0)
    ensures multiset(Names(s))[f] == if MatchCertFile(f).Some? then multiset(s)[(MatchCertFile(f).value, f)] else 0
  {
    hide MatchCertFile;
    if s == [] {
      assert Names(s) == [];
    } else {
      var init, p := s[..|s| - 1], s[|s| - 1];
      assert p in s && forall q <- init :: q in s;
      NamesCount(init, f);
      assert s == init + [p];
      NamesSnoc(init, p, f);
    }
  }

  lemma NamesSnoc(init: seq<(nat, string)>, p: (nat, string), f: string)
    ensures multiset(Names(init + [p]))[f] == multiset(Names(init))[f] + if p.1 == f then 1 else 0
  {
    assert Names(init + [p]) == Names(init) + [p.1];
  }

  /**
   For every chain of at least two certificates, discovery finds exactly its certificate files, in
   generation order, in whatever order the directory lists them and with every other file of the chain
   present.
  */
  lemma DiscoveryRecoversOrder(safes: seq<string>, listing: seq<string>)
    requires |safes| >= 2 && forall s <- safes :: s != []
    requires multiset(listing) == multiset(CertFiles(safes)) + multiset(KeyFiles(safes)) + multiset(BUNDLE_FILES)
    ensures Discover(listing) == Some(CertFiles(safes))
  {
    NumberedAreThePairs(safes, listing);
    SortPermutes(Numbered(listing));
    SortedIsUnique(SortByNumber(Numbered(listing)), Pairs(safes));
    hide CertFile;
    assert Names(Pairs(safes)) == CertFiles(safes);
  }

  /** What is collected from a listing of the chain's directory: its certificate files, each once. */
  lemma NumberedAreThePairs(safes: seq<string>, listing: seq<string>)
    requires forall s <- safes :: s != []
    requires multiset(listing) == multiset(CertFiles(safes)) + multiset(KeyFiles(safes)) + multiset(BUNDLE_FILES)
    ensures multiset(Numbered(listing)) == multiset(Pairs(safes)) && |Numbered(listing)| == |Pairs(safes)|
  {
    hide MatchCertFile, CertFiles, KeyFiles, Pairs, Numbered;
    forall p ensures multiset(Numbered(listing))[p] == multiset(Pairs(safes))[p] {
      NumberedCounts(listing, p);
      NumberedPairs(safes);
      NumberedCounts(CertFiles(safes), p);
      if MatchCertFile(p.1).Some? { OthersDoNotMatch(safes, p.1); }
    }
    assert multiset(Numbered(listing)) == multiset(Pairs(safes));
    assert |multiset(Numbered(listing))| == |multiset(Pairs(safes))|;
  }

  lemma OthersDoNotMatch(safes: seq<string>, name: string)
    requires (forall s <- safes :: s != []) && MatchCertFile(name).Some?
    ensures name !in KeyFiles(safes) && name !in BUNDLE_FILES
  {
    if name in KeyFiles(safes) {
      var i :| 0 <= i < |safes| && KeyFiles(safes)[i] == name;
      assert safes[i] in safes;
      CertFileMatches(i, safes[i]);
    }
    assert IsDigit(name[0]);
  }

  // ---- bundles ----

  /** `write_chain_bundle`: leaf first, without the trust anchor unless it is alone. */
  function ChainBundle(pems: seq<bytes>): bytes
    requires pems != []
  {
    if |pems| < 2 then Join([pems[|pems| - 1]]) else Join(Reverse(pems[1..]))
  }

  /** The bundle of `run_wolfssl`: the leaf, then the intermediates from its side. */
  method WolfsslBundle(read: string -> bytes, leaf: string, untrusted: seq<string>) returns (r: bytes)
    ensures r == read(leaf) + Join(Reverse(Contents(read, untrusted)))
  {
    assert untrusted[..|untrusted|] == untrusted;
    var written := read(leaf);
    var i := |untrusted|;
    while i > 0
      invariant 0 <= i <= |untrusted|
      invariant written + Join(Reverse(Contents(read, untrusted[..i]))) == read(leaf) + Join(Reverse(Contents(read, untrusted)))
    {
      i := i - 1;
      var u := untrusted[i];
      var init := Contents(read, untrusted[..i]);
      assert Contents(read, untrusted[..i + 1]) == init + [read(u)];
      ReverseSnoc(init, read(u));
      assert Join([read(u)] + Reverse(init)) == read(u) + Join(Reverse(init));
      assert written + (read(u) + Join(Reverse(init))) == written + read(u) + Join(Reverse(init));
      written := written + read(u);
    }
    r := written;
  }

  function Contents(read: string -> bytes, files: seq<string>): seq<bytes> {
    seq(|files|, i requires 0 <= i < |files| => read(files[i]))
  }

  /**
   A chain of at least two certificates, written out, discovered again in any directory order, and bundled
   for wolfSSL gives the octets of the generator's own chain bundle.
  */
  lemma BundlesAgree(safes: seq<string>, pems: seq<bytes>, listing: seq<string>, read: string -> bytes,
                     root: string, middle: seq<string>, leaf: string)
    requires |safes| >= 2 && |pems| == |safes| && forall s <- safes :: s != []
    requires multiset(listing) == multiset(CertFiles(safes)) + multiset(KeyFiles(safes)) + multiset(BUNDLE_FILES)
    requires forall i | 0 <= i < |safes| :: read(CertFile(i, safes[i])) == pems[i]
    requires Discover(listing) == Some([root] + middle + [leaf])
    ensures read(root) == pems[0]
    ensures read(leaf) + Join(Reverse(Contents(read, middle))) == ChainBundle(pems)
  {
    hide CertFile, KeyFile, Discover;
    DiscoveryRecoversOrder(safes, listing);
    var files := CertFiles(safes);
    assert files == [root] + middle + [leaf];
    assert root == files[0] && leaf == files[|files| - 1] && middle == files[1..|files| - 1];
    assert Contents(read, middle) == pems[1..|pems| - 1];
    var init := pems[1..|pems| - 1];
    assert pems[1..] == init + [pems[|pems| - 1]];
    ReverseSnoc(init, pems[|pems| - 1]);
    assert ([pems[|pems| - 1]] + Reverse(init))[1..] == Reverse(init);
  }

  /** The same with the files taken from where discovery puts them. */
  lemma FoundBundlesAgree(safes: seq<string>, pems: seq<bytes>, listing: seq<string>, read: string -> bytes)
    requires |safes| >= 2 && |pems| == |safes| && forall s <- safes :: s != []
    requires multiset(listing) == multiset(CertFiles(safes)) + multiset(KeyFiles(safes)) + multiset(BUNDLE_FILES)
    requires forall i | 0 <= i < |safes| :: read(CertFile(i, safes[i])) == pems[i]
    ensures Discover(listing).Some? && |Discover(listing).value| == |safes|
    ensures var found, n := Discover(listing).value, |safes|;
            && read(found[0]) == pems[0]
            && read(found[n - 1]) + Join(Reverse(Contents(read, found[1..n - 1]))) == ChainBundle(pems)
            && ChainBundle(pems) == Join(Reverse(pems[1..]))
  {
    DiscoveryRecoversOrder(safes, listing);
    var found, n := CertFiles(safes), |safes|;
    hide CertFiles, KeyFiles, Discover, Contents, Reverse, Join, CertFile;
    assert found == [found[0]] + found[1..n - 1] + [found[n - 1]];
    BundlesAgree(safes, pems, listing, read, found[0], found[1..n - 1], found[n - 1]);
  }

  // ---- the leaf's key ----

  /** The path `run_wolfssl` takes for the key of a leaf: every `.cert.pem` of its path replaced. */
  function KeyPath(dir: string, leaf: string): string {
    ReplaceAll(dir + ("/" + leaf), CERT_SUFFIX, KEY_SUFFIX)
  }

  /** No proper end of the suffix is a beginning of it. */
  lemma SuffixHasNoBorder(k: nat)
    requires 0 < k < |CERT_SUFFIX|
    ensures CERT_SUFFIX[k..] != CERT_SUFFIX[..|CERT_SUFFIX| - k]
  {
    assert CERT_SUFFIX[k..][0] == CERT_SUFFIX[k] && CERT_SUFFIX[..|CERT_SUFFIX| - k][0] == '.';
    if k == 5 { assert CERT_SUFFIX[k..][1] == 'p' && CERT_SUFFIX[..|CERT_SUFFIX| - k][1] == 'c'; }
  }

  /** The suffix stands at the start of `p` and the suffix only when it stands in `p`, or `p` is empty. */
  lemma SuffixInFront(p: string)
    requires p != []
    ensures CERT_SUFFIX <= p + CERT_SUFFIX <==> CERT_SUFFIX <= p
  {
    var s := p + CERT_SUFFIX;
    var front := s[..|CERT_SUFFIX|];
    if |p| < |CERT_SUFFIX| {
      SuffixHasNoBorder(|p|);
      assert front[|p|..] == CERT_SUFFIX[..|CERT_SUFFIX| - |p|];
    } else {
      assert front == p[..|CERT_SUFFIX|];
    }
  }

  /** Replacing in `p` and a suffix replaces in `p`, and turns the suffix into a key suffix. */
  lemma {:induction false} SuffixesReplaced(p: string) returns (r: string)
    ensures ReplaceAll(p + CERT_SUFFIX, CERT_SUFFIX, KEY_SUFFIX) == r + KEY_SUFFIX
    ensures r == ReplaceAll(p, CERT_SUFFIX, KEY_SUFFIX)
    decreases |p|
  {
    var s := p + CERT_SUFFIX;
    if p == [] {
      r := [];
      assert s == CERT_SUFFIX && s[|CERT_SUFFIX|..] == [];
      assert ReplaceAll([], CERT_SUFFIX, KEY_SUFFIX) == [] && KEY_SUFFIX + [] == [] + KEY_SUFFIX;
    } else {
      SuffixInFront(p);
      if CERT_SUFFIX <= p {
        assert s[|CERT_SUFFIX|..] == p[|CERT_SUFFIX|..] + CERT_SUFFIX;
        r := SuffixesReplaced(p[|CERT_SUFFIX|..]);
        assert KEY_SUFFIX + (r + KEY_SUFFIX) == (KEY_SUFFIX + r) + KEY_SUFFIX;
        r := KEY_SUFFIX + r;
      } else {
        assert s[1..] == p[1..] + CERT_SUFFIX;
        r := SuffixesReplaced(p[1..]);
        assert [p[0]] + (r + KEY_SUFFIX) == ([p[0]] + r) + KEY_SUFFIX;
        r := [p[0]] + r;
      }
    }
  }

  /** The name looked for in the leaf's directory. */
  function KeyLookup(index: nat, safe: string): string {
    TwoDigits(index) + ("-" + (ReplaceAll(safe, CERT_SUFFIX, KEY_SUFFIX) + KEY_SUFFIX))
  }

  lemma KeyPathIs(dir: string, index: nat, safe: string)
    requires !IsSubstring(CERT_SUFFIX, dir)
    ensures KeyPath(dir, CertFile(index, safe)) == dir + ("/" + KeyLookup(index, safe))
  {
    hide ReplaceAll, IsSubstring, TwoDigits;
    var digits := TwoDigits(index);
    var _ := SuffixesReplaced(safe);
    ReplaceNothing(dir, CERT_SUFFIX, KEY_SUFFIX);
    DigitsHoldNoSuffix(index);
    ReplaceNothing(digits, CERT_SUFFIX, KEY_SUFFIX);
    ReplaceAround(digits, '-', safe + CERT_SUFFIX, CERT_SUFFIX, KEY_SUFFIX);
    ReplaceAround(dir, '/', CertFile(index, safe), CERT_SUFFIX, KEY_SUFFIX);
  }

  lemma DigitsHoldNoSuffix(index: nat)
    ensures !IsSubstring(CERT_SUFFIX, TwoDigits(index))
  {
    TwoDigitsReadBack(index);
    NoDotNoSuffix(TwoDigits(index));
  }

  lemma {:induction false} NoDotNoSuffix(s: string)
    requires forall c <- s :: IsDigit(c)
    ensures !IsSubstring(CERT_SUFFIX, s)
  {
    if s != [] {
      assert s[0] in s && forall c <- s[1..] :: c in s;
      NoDotNoSuffix(s[1..]);
    }
  }

  lemma KeyLookupIsKeyFile(index: nat, safe: string)
    ensures KeyLookup(index, safe) == KeyFile(index, safe) <==> !IsSubstring(CERT_SUFFIX, safe)
  {
    var r := ReplaceAll(safe, CERT_SUFFIX, KEY_SUFFIX);
    hide ReplaceAll, IsSubstring, TwoDigits;
    ReplaceShortens(safe, CERT_SUFFIX, KEY_SUFFIX);
    if !IsSubstring(CERT_SUFFIX, safe) { ReplaceNothing(safe, CERT_SUFFIX, KEY_SUFFIX); }
    if KeyLookup(index, safe) == KeyFile(index, safe) {
      assert |KeyLookup(index, safe)| == |TwoDigits(index)| + 1 + |r| + |KEY_SUFFIX|;
      assert |KeyFile(index, safe)| == |TwoDigits(index)| + 1 + |safe| + |KEY_SUFFIX|;
    }
  }

  /**
   The key of a discovered leaf. In a directory whose path does not hold `.cert.pem`, `run_wolfssl` finds a
   file for the leaf's key if and only if the safe name of the leaf does not hold `.cert.pem`; and then it is
   the key file written for that leaf.
  */
  lemma LeafKeyIsFound(dir: string, safes: seq<string>, i: nat, listing: seq<string>)
    requires i < |safes| && (forall s <- safes :: s != []) && !IsSubstring(CERT_SUFFIX, dir)
    requires multiset(listing) == multiset(CertFiles(safes)) + multiset(KeyFiles(safes)) + multiset(BUNDLE_FILES)
    ensures KeyPath(dir, CertFile(i, safes[i])) == dir + ("/" + KeyLookup(i, safes[i]))
    ensures KeyLookup(i, safes[i]) in listing <==> !IsSubstring(CERT_SUFFIX, safes[i])
    ensures KeyLookup(i, safes[i]) in listing ==> KeyLookup(i, safes[i]) == KeyFile(i, safes[i])
  {
    hide IsSubstring, CertFile, KeyFile, KeyPath, KeyLookup;
    var name := KeyLookup(i, safes[i]);
    KeyPathIs(dir, i, safes[i]);
    KeyLookupIsKeyFile(i, safes[i]);
    assert name in listing <==> name in multiset(listing);
    assert KeyFiles(safes)[i] == KeyFile(i, safes[i]);
    if name in KeyFiles(safes) {
      var j :| 0 <= j < |safes| && KeyFiles(safes)[j] == name;
      LookupIndex(i, safes[i], j, safes[j]);
    }
    if name in CertFiles(safes) {
      var j :| 0 <= j < |safes| && CertFiles(safes)[j] == name;
      LookupIsNoCert(i, safes[i], j, safes[j]);
    }
    LookupIsNoBundle(i, safes[i]);
  }

  lemma LookupIndex(i: nat, safe: string, j: nat, other: string)
    requires KeyLookup(i, safe) == KeyFile(j, other)
    ensures i == j
  {
    hide ReplaceAll, TwoDigits, ParseDecimal;
    TwoDigitsReadBack(i);
    TwoDigitsReadBack(j);
    var a, b := "-" + (ReplaceAll(safe, CERT_SUFFIX, KEY_SUFFIX) + KEY_SUFFIX), "-" + (other + KEY_SUFFIX);
    DigitRunOf(TwoDigits(i), a);
    DigitRunOf(TwoDigits(j), b);
    assert (TwoDigits(i) + a)[..|TwoDigits(i)|] == TwoDigits(i);
    assert (TwoDigits(j) + b)[..|TwoDigits(j)|] == TwoDigits(j);
  }

  lemma LookupIsNoCert(i: nat, safe: string, j: nat, other: string)
    ensures KeyLookup(i, safe) != CertFile(j, other)
  {
    hide ReplaceAll, TwoDigits;
    var a, b := KeyLookup(i, safe), CertFile(j, other);
    assert a[|a| - 8] == KEY_SUFFIX[0] && b[|b| - 8] == CERT_SUFFIX[1];
  }

  lemma LookupIsNoBundle(i: nat, safe: string)
    ensures KeyLookup(i, safe) !in BUNDLE_FILES
  {
    hide ReplaceAll, TwoDigits;
    TwoDigitsReadBack(i);
    assert KeyLookup(i, safe)[0] == TwoDigits(i)[0] && TwoDigits(i)[0] in TwoDigits(i);
  }

  /**
   Where it is missed: an id that ends in `.cert.pem` is a safe name as it stands, and what is looked for ends
   in `.key.pem.key.pem`.
  */
  lemma LeafKeyIsMissed(index: nat, base: string)
    requires IsSafeName(base) && !IsSubstring(CERT_SUFFIX, base)
    ensures SafeFilename(base + CERT_SUFFIX) == Some(base + CERT_SUFFIX)
    ensures KeyLookup(index, base + CERT_SUFFIX) == TwoDigits(index) + ("-" + ((base + KEY_SUFFIX) + KEY_SUFFIX))
    ensures KeyLookup(index, base + CERT_SUFFIX) != KeyFile(index, base + CERT_SUFFIX)
  {
    hide ReplaceAll, IsSubstring, TwoDigits, SafeFilename;
    SafeNamesAreSafe(base + CERT_SUFFIX);
    SubstringAtEnd(base, CERT_SUFFIX);
    KeyLookupIsKeyFile(index, base + CERT_SUFFIX);
    var _ := SuffixesReplaced(base);
    ReplaceNothing(base, CERT_SUFFIX, KEY_SUFFIX);
  }

  /** A chain of one certificate has that one in its bundle, and a longer one not its first. */
  lemma ChainBundleHolds(first: bytes, rest: seq<bytes>)
    ensures ChainBundle([first] + rest) == if rest == [] then first else Join(Reverse(rest))
  {
    assert Join([first]) == first + Join([]);
    assert ([first] + rest)[1..] == rest;
  }
}
