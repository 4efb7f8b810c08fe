/** Conservation of verdicts over whole runs, and what the outlier lists and tallies mean. */
module VerdictTheorems {
  import opened Bytes
  import opened Verdicts
  import Pool
  import Text

  // ---- one chain ----

  lemma {:induction false} OthersCover(results: seq<Row>, i: nat)
    requires i < |results| && results[i].name != GO && AllOk(Others(results))
    ensures results[i].ok
  {
    var rest := Others(results[1..]);
    if results[0].name == GO {
      OthersCover(results[1..], i - 1);
    } else {
      assert Others(results)[0] == results[0] && Others(results)[1..] == rest;
      if i > 0 {
        assert forall k | 0 <= k < |rest| :: rest[k] == Others(results)[k + 1];
        OthersCover(results[1..], i - 1);
      }
    }
  }

  /** An abstention makes every adjusted verdict an acceptance, and is the only rejection among the raw ones. */
  lemma AbstentionAccepts(results: seq<Row>, enabled: seq<string>)
    requires FromEnabled(results, enabled) && Abstains(results)
    ensures AllOk(Adjusted(results)) && Alone(results, GoIndex(results))
  {
    var g := GoIndex(results);
    forall i | 0 <= i < |results| && i != g ensures results[i].ok {
      assert enabled[i] != enabled[g];
      OthersCover(results, i);
    }
  }

  lemma {:induction false} WrongAre(results: seq<Row>, expected: bool)
    ensures WrongNames(results, expected) == NamesWith(results, !expected)
    ensures |NamesWith(results, true)| + |NamesWith(results, false)| == |results|
    ensures NamesWith(results, !expected) == [] <==> AllAre(results, expected)
  {
    if results != [] {
      WrongAre(results[1..], expected);
      assert AllAre(results, expected) <==> results[0].ok == expected && AllAre(results[1..], expected) by {
        assert forall k | 0 <= k < |results| - 1 :: results[1..][k] == results[k + 1];
        assert forall k | 1 <= k < |results| :: results[k] == results[1..][k - 1];
      }
    }
  }

  /** `i` is alone with its verdict. */
  predicate Alone(results: seq<Row>, i: nat) {
    i < |results| && forall j | 0 <= j < |results| :: j != i ==> results[j].ok != results[i].ok
  }

  predicate AloneAs(results: seq<Row>, i: nat, name: string, direction: string) {
    && Alone(results, i) && results[i].name == name
    && direction == (if results[i].ok then "alone in accepting" else "alone in rejecting")
  }

  lemma {:induction false} AloneIsCounted(results: seq<Row>, i: nat)
    requires Alone(results, i)
    ensures NamesWith(results, results[i].ok) == [results[i].name]
  {
    var rest := results[1..];
    if i == 0 {
      WrongAre(rest, !results[0].ok);
      assert forall k | 0 <= k < |rest| :: rest[k] == results[k + 1];
    } else {
      assert rest[i - 1] == results[i];
      assert forall k | 0 <= k < |rest| :: rest[k] == results[k + 1];
      AloneIsCounted(rest, i - 1);
    }
  }

  lemma {:induction false} SingleIsAlone(results: seq<Row>, verdict: bool) returns (i: nat)
    requires |NamesWith(results, verdict)| == 1
    ensures Alone(results, i) && results[i].ok == verdict && results[i].name == NamesWith(results, verdict)[0]
  {
    var rest := results[1..];
    assert forall k | 1 <= k < |results| :: results[k] == rest[k - 1];
    if results[0].ok == verdict {
      i := 0;
      WrongAre(rest, !verdict);
    } else {
      i := SingleIsAlone(rest, verdict);
      i := i + 1;
    }
  }

  /**
   Outliers, characterised. With at least three validators a chain gives one outlier entry exactly when one
   raw verdict differs from all the others, and the entry names that validator and its direction; with
   fewer than three it gives none.
  */
  lemma OutlierCharacterised(results: seq<Row>, name: string, direction: string)
    ensures OutlierOf(results) == Some((name, direction)) <==>
            |results| >= 3 && exists i: nat :: AloneAs(results, i, name, direction)
  {
    WrongAre(results, true);
    if OutlierOf(results) == Some((name, direction)) {
      var i := SingleIsAlone(results, direction == ALONE_ACCEPTING);
      assert AloneAs(results, i, name, direction);
    }
    if i: nat :| |results| >= 3 && AloneAs(results, i, name, direction) {
      AloneIsCounted(results, i);
    }
  }

  /**
   What abstention does to one chain: a chain expected to be valid is clean; one expected to be invalid
   is a universal accepts-invalid record although Go rejected it; and with three validators or more Go is
   entered as alone in rejecting either way.
  */
  lemma AbstentionOutcome(c: Case, enabled: seq<string>)
    requires FromEnabled(c.results, enabled) && Abstains(c.results)
    ensures IsClean(c) <==> c.expected
    ensures !c.expected ==> RecordOf(c).universal && |RecordOf(c).wrongNames| == |NamesWith(c.results, true)| + 1
    ensures |enabled| >= 3 ==> OutlierOf(c.results) == Some((GO, ALONE_REJECTING))
  {
    AbstentionAccepts(c.results, enabled);
    WrongAre(Adjusted(c.results), c.expected);
    WrongAre(Adjusted(c.results), !c.expected);
    WrongAre(c.results, c.expected);
    AloneIsCounted(c.results, GoIndex(c.results));
    assert Adjusted(c.results)[0].ok;
    assert AloneAs(c.results, GoIndex(c.results), GO, ALONE_REJECTING);
    OutlierCharacterised(c.results, GO, ALONE_REJECTING);
  }

  /** A chain that is not clean has a wrong validator; without abstention its record counts the raw verdicts. */
  lemma RecordShape(c: Case, enabled: seq<string>)
    requires FromEnabled(c.results, enabled)
    ensures IsClean(c) <==> RecordOf(c).wrongNames == []
    ensures !Abstains(c.results) ==> RecordOf(c).wrongNames == NamesWith(c.results, !c.expected)
  {
    WrongAre(Adjusted(c.results), c.expected);
  }

  // ---- whole runs ----

  /** The chains of a run on which Go abstains and which are expected to be `expected`. */
  function CountAbstained(cases: seq<Case>, expected: bool): nat {
    if cases == [] then 0
    else
      var c := cases[|cases| - 1];
      CountAbstained(cases[..|cases| - 1], expected) + if Abstains(c.results) && c.expected == expected then 1 else 0
  }

  ghost predicate AllFromEnabled(cases: seq<Case>, enabled: seq<string>) {
    forall i | 0 <= i < |cases| :: FromEnabled(cases[i].results, enabled)
  }

  function SumWrong(records: seq<Record>): nat {
    if records == [] then 0 else SumWrong(records[..|records| - 1]) + |records[|records| - 1].wrongNames|
  }

  /** The raw verdicts `verdict` in the records. */
  function SumRaw(records: seq<Record>, verdict: bool): nat {
    if records == [] then 0
    else SumRaw(records[..|records| - 1], verdict) + |NamesWith(records[|records| - 1].results, verdict)|
  }

  predicate GoodRecords(records: seq<Record>, expected: bool, enabled: seq<string>) {
    forall i | 0 <= i < |records| ::
      records[i].wrongNames != [] && records[i].expected == expected && FromEnabled(records[i].results, enabled)
  }

  /**
   Conservation of verdicts. Every chain is counted once: clean, accepts-invalid or rejects-valid. Every
   record has a wrong validator. In the rejects-valid bucket the raw rejections are the wrong names; in
   the accepts-invalid bucket the raw acceptances fall short of the wrong names by exactly one for each
   chain on which Go's abstention was rewritten. And the abstention count covers both kinds of chains.
  */
  lemma {:induction false} Conservation(cases: seq<Case>, enabled: seq<string>)
    requires AllFromEnabled(cases, enabled)
    ensures Balanced(Summarize(cases), |cases|, CountAbstained(cases, true), CountAbstained(cases, false), enabled)
  {
    hide Balanced, Classify, Abstains, FromEnabled;
    if cases == [] {
      NothingIsBalanced(enabled);
    } else {
      var init, c := cases[..|cases| - 1], cases[|cases| - 1];
      Conservation(init, enabled);
      BalanceIsKept(Summarize(init), |init|, CountAbstained(init, true), CountAbstained(init, false), enabled, c);
    }
  }

  lemma NothingIsBalanced(enabled: seq<string>)
    ensures Balanced(Summary(0, 0, [], [], map[]), 0, 0, 0, enabled)
  {
  }

  /** The accounts of a run over `n` chains, of which Go abstained on `valid` and `invalid` by expectation. */
  predicate Balanced(s: Summary, n: nat, valid: nat, invalid: nat, enabled: seq<string>) {
    && s.clean + |s.acceptsInvalid| + |s.rejectsValid| == n
    && GoodRecords(s.acceptsInvalid, false, enabled) && GoodRecords(s.rejectsValid, true, enabled)
    && SumRaw(s.rejectsValid, false) == SumWrong(s.rejectsValid)
    && SumRaw(s.acceptsInvalid, true) + invalid == SumWrong(s.acceptsInvalid)
    && s.goAbstained == valid + invalid
    && valid <= s.clean && invalid <= |s.acceptsInvalid|
  }

  /** Classifying one more chain keeps the accounts balanced. */
  lemma BalanceIsKept(s: Summary, n: nat, valid: nat, invalid: nat, enabled: seq<string>, c: Case)
    requires Balanced(s, n, valid, invalid, enabled) && FromEnabled(c.results, enabled)
    ensures Balanced(Classify(s, c), n + 1,
                     valid + (if Abstains(c.results) && c.expected then 1 else 0),
                     invalid + (if Abstains(c.results) && !c.expected then 1 else 0), enabled)
  {
    hide Abstains, IsClean, RecordOf, FromEnabled, NamesWith, OutlierOf, SumRaw, SumWrong, GoodRecords, AddOutlier;
    RecordShape(c, enabled);
    if Abstains(c.results) { AbstentionOutcome(c, enabled); }
    RecordKeeps(c);
    var r := RecordOf(c);
    SumsSnoc(s.acceptsInvalid, r, true);
    SumsSnoc(s.rejectsValid, r, false);
    if r.wrongNames != [] { GoodSnoc(if r.expected then s.rejectsValid else s.acceptsInvalid, r, r.expected, enabled); }
  }

  lemma GoodSnoc(records: seq<Record>, r: Record, expected: bool, enabled: seq<string>)
    requires GoodRecords(records, expected, enabled)
    requires r.wrongNames != [] && r.expected == expected && FromEnabled(r.results, enabled)
    ensures GoodRecords(records + [r], expected, enabled)
  {
  }

  lemma RecordKeeps(c: Case)
    ensures RecordOf(c).expected == c.expected && RecordOf(c).results == c.results && RecordOf(c).chain == c.chain
  {
  }

  lemma SumsSnoc(records: seq<Record>, r: Record, verdict: bool)
    ensures SumWrong(records + [r]) == SumWrong(records) + |r.wrongNames|
    ensures SumRaw(records + [r], verdict) == SumRaw(records, verdict) + |NamesWith(r.results, verdict)|
  {
    assert (records + [r])[..|records|] == records;
  }

  /** The exit code is zero exactly when every chain's adjusted verdicts are all as expected. */
  lemma ExitCodeIsZero(cases: seq<Case>, enabled: seq<string>)
    requires AllFromEnabled(cases, enabled)
    ensures var s := Summarize(cases);
            s.acceptsInvalid == [] && s.rejectsValid == []
            <==> forall i | 0 <= i < |cases| :: AllAre(Adjusted(cases[i].results), cases[i].expected)
  {
    Conservation(cases, enabled);
    CleanCount(cases, enabled);
  }

  lemma {:induction false} CleanCount(cases: seq<Case>, enabled: seq<string>)
    requires AllFromEnabled(cases, enabled)
    ensures Summarize(cases).clean <= |cases|
    ensures Summarize(cases).clean == |cases|
            <==> forall i | 0 <= i < |cases| :: AllAre(Adjusted(cases[i].results), cases[i].expected)
  {
    if cases != [] {
      var init, c := cases[..|cases| - 1], cases[|cases| - 1];
      CleanCount(init, enabled);
      CleanStep(Summarize(init), c, enabled);
      hide Adjusted, AllAre, Classify, FromEnabled;
      assert forall i | 0 <= i < |init| :: init[i] == cases[i];
    }
  }

  lemma CleanStep(s: Summary, c: Case, enabled: seq<string>)
    requires FromEnabled(c.results, enabled)
    ensures Classify(s, c).clean == s.clean + if AllAre(Adjusted(c.results), c.expected) then 1 else 0
  {
    hide OutlierOf, Abstains, RecordOf;
  }

  // ---- one more chain, in terms of its raw results ----

  /**
   Go abstains on these results: it ran with others, it alone rejects, and its output holds the words of an
   unhandled critical extension.
  */
  ghost predicate GoAbstained(rs: seq<Row>) {
    |rs| >= 2 && exists g :: IsGoAbstention(rs, g)
  }

  ghost predicate IsGoAbstention(rs: seq<Row>, g: int) {
    && 0 <= g < |rs| && rs[g].name == "go" && !rs[g].ok
    && (exists i :: Text.StandsAt("x509: unhandled critical extension", rs[g].out, i))
    && forall j | 0 <= j < |rs| && j != g :: rs[j].ok
  }

  lemma AbstainsMeans(rs: seq<Row>, enabled: seq<string>)
    requires FromEnabled(rs, enabled)
    ensures Abstains(rs) <==> GoAbstained(rs)
  {
    var g := GoIndex(rs);
    if g < |rs| { Text.SubstringStands("x509: unhandled critical extension", rs[g].out); }
    if Abstains(rs) {
      AbstentionAccepts(rs, enabled);
      assert IsGoAbstention(rs, g);
    }
    if GoAbstained(rs) {
      var h :| IsGoAbstention(rs, h);
      assert enabled[g] == enabled[h];
      AllButGoAccept(rs, h);
    }
  }

  lemma {:induction false} AllButGoAccept(rs: seq<Row>, g: int)
    requires forall j | 0 <= j < |rs| && j != g :: rs[j].ok
    requires 0 <= g < |rs| ==> rs[g].name == GO
    ensures AllOk(Others(rs))
  {
    if rs != [] {
      assert forall j | 0 <= j < |rs| - 1 :: rs[1..][j] == rs[j + 1];
      AllButGoAccept(rs[1..], g - 1);
    }
  }

  /** `names` are the names of the rows whose verdict is not `expected`, in order. */
  ghost predicate NamesWrong(names: seq<string>, rs: seq<Row>, expected: bool) {
    exists at: seq<nat> :: PicksWrong(names, rs, expected, at)
  }

  ghost predicate PicksWrong(names: seq<string>, rs: seq<Row>, expected: bool, at: seq<nat>) {
    Points(names, rs, expected, at) && Increasing(at) && HoldsAllWrong(rs, expected, at)
  }

  predicate Points(names: seq<string>, rs: seq<Row>, expected: bool, at: seq<nat>) {
    |at| == |names| && forall k | 0 <= k < |at| ::
      at[k] < |rs| && rs[at[k]].ok != expected && names[k] == rs[at[k]].name
  }

  predicate Increasing(at: seq<nat>) {
    forall k, l | 0 <= k < l < |at| :: at[k] < at[l]
  }

  predicate HoldsAllWrong(rs: seq<Row>, expected: bool, at: seq<nat>) {
    forall i | 0 <= i < |rs| && rs[i].ok != expected :: i in at
  }

  lemma {:induction false} WrongNamesAreWrong(rs: seq<Row>, expected: bool)
    ensures NamesWrong(WrongNames(rs, expected), rs, expected)
  {
    var at := WrongPlaces(rs, expected);
    assert PicksWrong(WrongNames(rs, expected), rs, expected, at);
  }

  lemma {:induction false} WrongPlaces(rs: seq<Row>, expected: bool) returns (at: seq<nat>)
    ensures PicksWrong(WrongNames(rs, expected), rs, expected, at)
  {
    if rs == [] {
      at := [];
    } else {
      var rest := WrongPlaces(rs[1..], expected);
      var shifted: seq<nat> := seq(|rest|, k requires 0 <= k < |rest| => rest[k] + 1);
      at := (if rs[0].ok != expected then [0] else []) + shifted;
      var first := if rs[0].ok != expected then [rs[0].name] else [];
      assert WrongNames(rs, expected) == first + WrongNames(rs[1..], expected);
      hide WrongNames;
      PicksShift(WrongNames(rs[1..], expected), rs, expected, rest, at);
    }
  }

  lemma PicksShift(names: seq<string>, rs: seq<Row>, expected: bool, rest: seq<nat>, at: seq<nat>)
    requires rs != [] && PicksWrong(names, rs[1..], expected, rest)
    requires at == (if rs[0].ok != expected then [0] else []) + seq(|rest|, k requires 0 <= k < |rest| => rest[k] + 1)
    ensures PicksWrong((if rs[0].ok != expected then [rs[0].name] else []) + names, rs, expected, at)
  {
    var shifted: seq<nat> := seq(|rest|, k requires 0 <= k < |rest| => rest[k] + 1);
    ShiftedIncrease(rest, shifted, at);
    ShiftedHold(rs, expected, rest, shifted);
    hide Increasing, HoldsAllWrong;
    ShiftedPoint(names, rs, expected, rest, shifted);
    if rs[0].ok != expected {
      assert at == [0] + shifted;
      PointFirst(names, rs, expected, shifted);
      HoldFirst(rs, expected, shifted);
    } else {
      assert at == shifted && [] + names == names;
      HoldRest(rs, expected, shifted);
    }
  }

  lemma ShiftedIncrease(rest: seq<nat>, shifted: seq<nat>, at: seq<nat>)
    requires Increasing(rest) && |shifted| == |rest| && forall k | 0 <= k < |rest| :: shifted[k] == rest[k] + 1
    requires at == shifted || at == [0] + shifted
    ensures Increasing(at)
  {
  }

  lemma ShiftedPoint(names: seq<string>, rs: seq<Row>, expected: bool, rest: seq<nat>, shifted: seq<nat>)
    requires rs != [] && Points(names, rs[1..], expected, rest)
    requires |shifted| == |rest| && forall k | 0 <= k < |rest| :: shifted[k] == rest[k] + 1
    ensures Points(names, rs, expected, shifted)
  {
    forall k | 0 <= k < |shifted|
      ensures shifted[k] < |rs| && rs[shifted[k]].ok != expected && names[k] == rs[shifted[k]].name
    {
      assert rs[1..][rest[k]] == rs[shifted[k]];
    }
  }

  lemma PointFirst(names: seq<string>, rs: seq<Row>, expected: bool, shifted: seq<nat>)
    requires rs != [] && rs[0].ok != expected && Points(names, rs, expected, shifted)
    ensures Points([rs[0].name] + names, rs, expected, [0] + shifted)
  {
  }

  /** Behind the first row, all wrong rows are held. */
  predicate HoldsBehind(rs: seq<Row>, expected: bool, at: seq<nat>) {
    forall i | 1 <= i < |rs| && rs[i].ok != expected :: i in at
  }

  lemma ShiftedHold(rs: seq<Row>, expected: bool, rest: seq<nat>, shifted: seq<nat>)
    requires rs != [] && HoldsAllWrong(rs[1..], expected, rest)
    requires |shifted| == |rest| && forall k | 0 <= k < |rest| :: shifted[k] == rest[k] + 1
    ensures HoldsBehind(rs, expected, shifted)
  {
    forall i | 1 <= i < |rs| && rs[i].ok != expected ensures i in shifted {
      assert rs[1..][i - 1] == rs[i];
      var k :| 0 <= k < |rest| && rest[k] == i - 1;
      assert shifted[k] == i;
    }
  }

  lemma HoldFirst(rs: seq<Row>, expected: bool, shifted: seq<nat>)
    requires HoldsBehind(rs, expected, shifted)
    ensures HoldsAllWrong(rs, expected, [0] + shifted)
  {
    assert 0 in [0] + shifted && forall i <- shifted :: i in [0] + shifted;
  }

  lemma HoldRest(rs: seq<Row>, expected: bool, shifted: seq<nat>)
    requires rs != [] && rs[0].ok == expected && HoldsBehind(rs, expected, shifted)
    ensures HoldsAllWrong(rs, expected, shifted)
  {
  }

  /** What one more chain adds to the run, said of its raw results alone. */
  ghost predicate Adds(before: Summary, after: Summary, c: Case) {
    var rs := c.results;
    && after.goAbstained == before.goAbstained + (if GoAbstained(rs) then 1 else 0)
    && (if (GoAbstained(rs) && c.expected) || (forall i | 0 <= i < |rs| :: rs[i].ok == c.expected) then
          && after.clean == before.clean + 1
          && after.acceptsInvalid == before.acceptsInvalid && after.rejectsValid == before.rejectsValid
        else
          && after.clean == before.clean
          && (if c.expected then after.acceptsInvalid == before.acceptsInvalid
              else after.rejectsValid == before.rejectsValid)
          && (var was, now := if c.expected then before.rejectsValid else before.acceptsInvalid,
                                if c.expected then after.rejectsValid else after.acceptsInvalid;
              |now| == |was| + 1 && now[..|was|] == was && RecordsRaw(now[|was|], c)))
  }

  /** The record of a chain that is not clean. */
  ghost predicate RecordsRaw(r: Record, c: Case) {
    var rs := c.results;
    && r.chain == c.chain && r.expected == c.expected && r.results == rs
    && (if GoAbstained(rs) then |r.wrongNames| == |rs| && forall i | 0 <= i < |rs| :: r.wrongNames[i] == rs[i].name
        else NamesWrong(r.wrongNames, rs, c.expected))
    && (r.universal <==> GoAbstained(rs) || forall i | 0 <= i < |rs| :: rs[i].ok != c.expected)
  }

  /**
   Classification, step by step: each chain of a run is clean, abstained, or recorded as its raw results say.
   Only a rejection by Go alone that names an unhandled critical extension is rewritten.
  */
  lemma LastChain(cases: seq<Case>, enabled: seq<string>)
    requires AllFromEnabled(cases, enabled) && cases != []
    ensures Adds(Summarize(cases[..|cases| - 1]), Summarize(cases), cases[|cases| - 1])
  {
    var c := cases[|cases| - 1];
    assert FromEnabled(c.results, enabled);
    hide *;
    SummarizeLast(cases);
    AbstainsMeans(c.results, enabled);
    AdjustedMeans(c, enabled);
    ClassifyAdds(Summarize(cases[..|cases| - 1]), c);
  }

  lemma SummarizeLast(cases: seq<Case>)
    requires cases != []
    ensures Summarize(cases) == Classify(Summarize(cases[..|cases| - 1]), cases[|cases| - 1])
  {
  }

  lemma ClassifyAdds(before: Summary, c: Case)
    requires Abstains(c.results) <==> GoAbstained(c.results)
    requires IsClean(c) <==> (GoAbstained(c.results) && c.expected)
                             || forall i | 0 <= i < |c.results| :: c.results[i].ok == c.expected
    requires !IsClean(c) ==> RecordsRaw(RecordOf(c), c)
    ensures Adds(before, Classify(before, c), c)
  {
    hide Abstains, IsClean, GoAbstained, RecordsRaw, RecordOf, OutlierOf, AddOutlier;
  }

  lemma AdjustedMeans(c: Case, enabled: seq<string>)
    requires FromEnabled(c.results, enabled)
    ensures IsClean(c) <==> (GoAbstained(c.results) && c.expected)
                            || forall i | 0 <= i < |c.results| :: c.results[i].ok == c.expected
    ensures !IsClean(c) ==> RecordsRaw(RecordOf(c), c)
  {
    var rs := c.results;
    AbstainsMeans(rs, enabled);
    WrongAre(Adjusted(rs), c.expected);
    if Abstains(rs) {
      AbstentionAccepts(rs, enabled);
      AbstentionOutcome(c, enabled);
      if !c.expected { AllNamesWrong(Adjusted(rs)); }
    } else {
      WrongNamesAreWrong(rs, c.expected);
      AllWrong(rs, c.expected);
    }
  }

  lemma {:induction false} AllNamesWrong(rs: seq<Row>)
    requires AllOk(rs)
    ensures |WrongNames(rs, false)| == |rs| && forall i | 0 <= i < |rs| :: WrongNames(rs, false)[i] == rs[i].name
  {
    if rs != [] {
      assert forall j | 0 <= j < |rs| - 1 :: rs[1..][j] == rs[j + 1];
      AllNamesWrong(rs[1..]);
    }
  }

  lemma AllWrong(rs: seq<Row>, expected: bool)
    ensures |WrongNames(rs, expected)| == |rs| <==> forall i | 0 <= i < |rs| :: rs[i].ok != expected
  {
    WrongAre(rs, expected);
    WrongAre(rs, !expected);
  }

  /** A lone rejection by Go for any other reason is a finding against it. */
  lemma GenuineRejection(chain: string, first: Row, last: Row, reason: string)
    requires first.ok && last.ok && first.name != "go" && last.name != "go"
    requires !Text.IsSubstring("x509: unhandled critical extension", reason)
    ensures var s := Summarize([Case(chain, true, [first, Row("go", false, reason), last])]);
            && s.clean == 0 && s.goAbstained == 0 && s.acceptsInvalid == []
            && |s.rejectsValid| == 1 && s.rejectsValid[0].wrongNames == ["go"]
            && s.outliers == map[("go", "alone in rejecting") := [chain]]
  {
    var go := Row("go", false, reason);
    var rs := [first, go, last];
    var c := Case(chain, true, rs);
    ThreeRows(first, go, last);
    assert [c][..0] == [];
    hide Text.IsSubstring, NamesWith, WrongNames, GoIndex, Others;
    assert !Abstains(rs) && !rs[1].ok && Adjusted(rs) == rs && !IsClean(c);
    assert OutlierOf(rs) == Some(("go", ALONE_REJECTING));
    assert RecordOf(c).wrongNames == ["go"];
    hide Abstains, Adjusted, IsClean, OutlierOf, RecordOf;
    var start := Summary(0, 0, [], [], map[]);
    assert Summarize([c]) == Classify(start, c);
    assert AddOutlier(map[], ("go", "alone in rejecting"), chain) == map[("go", "alone in rejecting") := [chain]] by {
      assert [] + [chain] == [chain];
    }
  }

  lemma ThreeRows(first: Row, go: Row, last: Row)
    requires first.ok && last.ok && first.name != "go" && go.name == "go" && !go.ok
    ensures var rs := [first, go, last];
            && GoIndex(rs) == 1 && WrongNames(rs, true) == ["go"]
            && NamesWith(rs, true) == [first.name, last.name] && NamesWith(rs, false) == ["go"]
  {
    var rs := [first, go, last];
    assert rs[1..] == [go, last] && [go, last][1..] == [last];
    assert GoIndex([go, last]) == 0;
    OneRow(last, true);
    OneRow(last, false);
    assert WrongNames([go, last], true) == ["go"] + WrongNames([last], true);
    assert NamesWith([go, last], true) == [] + NamesWith([last], true);
    assert NamesWith([go, last], false) == ["go"] + NamesWith([last], false);
    assert WrongNames(rs, true) == [] + WrongNames([go, last], true);
    assert NamesWith(rs, true) == [first.name] + NamesWith([go, last], true);
    assert NamesWith(rs, false) == [] + NamesWith([go, last], false);
  }

  lemma OneRow(r: Row, verdict: bool)
    ensures NamesWith([r], verdict) == (if r.ok == verdict then [r.name] else [])
    ensures WrongNames([r], verdict) == (if r.ok != verdict then [r.name] else [])
  {
    assert [r][1..] == [];
  }

  /** A message it may come with. */
  lemma GenuineReason()
    ensures !Text.IsSubstring("x509: unhandled critical extension", "certificate is not authorized")
  {
    Text.NoSubstring("x509: unhandled critical extension", "certificate is not authorized");
  }

  // ---- outlier lists ----

  function ListFor(outliers: map<(string, string), seq<string>>, key: (string, string)): seq<string> {
    if key in outliers then outliers[key] else []
  }

  function LabelsOf(cases: seq<Case>, key: (string, string)): seq<string> {
    if cases == [] then []
    else
      var c := cases[|cases| - 1];
      LabelsOf(cases[..|cases| - 1], key) + if OutlierOf(c.results) == Some(key) then [c.chain] else []
  }

  /** Each outlier list holds the labels of exactly the chains with that outlier, in order. */
  lemma {:induction false} OutlierLists(cases: seq<Case>, key: (string, string))
    ensures ListFor(Summarize(cases).outliers, key) == LabelsOf(cases, key)
  {
    hide OutlierOf, Abstains, IsClean, RecordOf;
    if cases != [] { OutlierLists(cases[..|cases| - 1], key); }
  }

  /** With three validators or more, every abstention is in Go's alone-in-rejecting list. */
  lemma {:induction false} AbstentionsAreOutliers(cases: seq<Case>, enabled: seq<string>)
    requires AllFromEnabled(cases, enabled) && |enabled| >= 3
    ensures |ListFor(Summarize(cases).outliers, (GO, ALONE_REJECTING))| >= Summarize(cases).goAbstained
  {
    OutlierLists(cases, (GO, ALONE_REJECTING));
    if cases != [] {
      var init, c := cases[..|cases| - 1], cases[|cases| - 1];
      AbstentionsAreOutliers(init, enabled);
      OutlierLists(init, (GO, ALONE_REJECTING));
      assert FromEnabled(c.results, enabled);
      if Abstains(c.results) { AbstentionOutcome(c, enabled); }
      hide OutlierOf, Abstains, IsClean, RecordOf;
    }
  }

  // ---- per-validator tallies ----

  function CountRows(results: seq<Row>, name: string, verdict: bool): nat {
    if results == [] then 0
    else CountRows(results[..|results| - 1], name, verdict)
         + if results[|results| - 1].name == name && results[|results| - 1].ok == verdict then 1 else 0
  }

  function TallyFor(records: seq<Record>, name: string, verdict: bool): nat {
    if records == [] then 0
    else TallyFor(records[..|records| - 1], name, verdict) + CountRows(records[|records| - 1].results, name, verdict)
  }

  /** The tally loops: for every enabled validator, how often it gave `verdict` in the records. */
  method Tally(records: seq<Record>, enabled: seq<string>, verdict: bool) returns (tally: map<string, nat>)
    requires forall i | 0 <= i < |records| :: FromEnabled(records[i].results, enabled)
    ensures forall name :: name in tally <==> name in enabled
    ensures forall name <- enabled :: tally[name] == TallyFor(records, name, verdict)
  {
    tally := map name | name in enabled :: 0;
    for k := 0 to |records|
      invariant forall name :: name in tally <==> name in enabled
      invariant forall name <- enabled :: tally[name] == TallyFor(records[..k], name, verdict)
    {
      assert FromEnabled(records[k].results, enabled);
      assert records[..k + 1][..k] == records[..k];
      tally := TallyRecord(tally, records[k].results, enabled, verdict);
    }
    assert records[..|records|] == records;
  }

  /** The inner loop, over the results of one record. */
  method TallyRecord(tally: map<string, nat>, results: seq<Row>, enabled: seq<string>, verdict: bool)
    returns (r: map<string, nat>)
    requires FromEnabled(results, enabled) && forall name :: name in tally <==> name in enabled
    ensures forall name :: name in r <==> name in enabled
    ensures forall name <- enabled :: r[name] == tally[name] + CountRows(results, name, verdict)
  {
    r := tally;
    for j := 0 to |results|
      invariant forall name :: name in r <==> name in enabled
      invariant forall name <- enabled :: r[name] == tally[name] + CountRows(results[..j], name, verdict)
    {
      assert results[..j + 1][..j] == results[..j];
      assert results[j].name == enabled[j] && results[j].name in enabled;
      if results[j].ok == verdict { r := r[results[j].name := r[results[j].name] + 1]; }
    }
    assert results[..|results|] == results;
  }

  /** The sum of a tally over the enabled validators. */
  function SumTally(enabled: seq<string>, records: seq<Record>, verdict: bool): nat {
    if enabled == [] then 0
    else SumTally(enabled[..|enabled| - 1], records, verdict) + TallyFor(records, enabled[|enabled| - 1], verdict)
  }

  function SumRows(names: seq<string>, results: seq<Row>, verdict: bool): nat {
    if names == [] then 0
    else SumRows(names[..|names| - 1], results, verdict) + CountRows(results, names[|names| - 1], verdict)
  }

  lemma {:induction false} SumTallySnoc(names: seq<string>, records: seq<Record>, verdict: bool)
    requires records != []
    ensures SumTally(names, records, verdict)
            == SumTally(names, records[..|records| - 1], verdict) + SumRows(names, records[|records| - 1].results, verdict)
  {
    if names != [] { SumTallySnoc(names[..|names| - 1], records, verdict); }
  }

  lemma {:induction false} SumTallyEmpty(names: seq<string>, verdict: bool)
    ensures SumTally(names, [], verdict) == 0
  {
    if names != [] { SumTallyEmpty(names[..|names| - 1], verdict); }
  }

  lemma {:induction false} SumTallyIsRaw(enabled: seq<string>, records: seq<Record>, verdict: bool)
    requires forall i | 0 <= i < |records| :: FromEnabled(records[i].results, enabled)
    ensures SumTally(enabled, records, verdict) == SumRaw(records, verdict)
  {
    if records == [] {
      SumTallyEmpty(enabled, verdict);
    } else {
      var init, r := records[..|records| - 1], records[|records| - 1];
      SumTallyIsRaw(enabled, init, verdict);
      SumTallySnoc(enabled, records, verdict);
      assert FromEnabled(r.results, enabled);
      RowsAreNames(enabled, r.results, verdict);
    }
  }

  /** Counting by name counts every row with the verdict once. */
  lemma RowsAreNames(enabled: seq<string>, results: seq<Row>, verdict: bool)
    requires FromEnabled(results, enabled)
    ensures SumRows(enabled, results, verdict) == |NamesWith(results, verdict)|
  {
    SumRowsAll(enabled, results, verdict);
    NamesCount(results, verdict);
  }

  function CountVerdict(results: seq<Row>, verdict: bool): nat {
    if results == [] then 0
    else CountVerdict(results[..|results| - 1], verdict) + if results[|results| - 1].ok == verdict then 1 else 0
  }

  lemma {:induction false} NamesCount(results: seq<Row>, verdict: bool)
    ensures |NamesWith(results, verdict)| == CountVerdict(results, verdict)
  {
    if results != [] {
      NamesCount(results[..|results| - 1], verdict);
      NamesSnoc(results[..|results| - 1], results[|results| - 1], verdict);
      assert results == results[..|results| - 1] + [results[|results| - 1]];
    }
  }

  lemma {:induction false} NamesSnoc(results: seq<Row>, r: Row, verdict: bool)
    ensures |NamesWith(results + [r], verdict)| == |NamesWith(results, verdict)| + if r.ok == verdict then 1 else 0
  {
    if results == [] {
      assert ([r])[1..] == [];
      assert results + [r] == [r];
    } else {
      assert (results + [r])[1..] == results[1..] + [r];
      NamesSnoc(results[1..], r, verdict);
    }
  }

  /** Over distinct names that include all names of the rows, each row is counted once. */
  lemma {:induction false} SumRowsAll(names: seq<string>, results: seq<Row>, verdict: bool)
    requires forall i, j | 0 <= i < j < |names| :: names[i] != names[j]
    requires forall i | 0 <= i < |results| :: results[i].name in names
    ensures SumRows(names, results, verdict) == CountVerdict(results, verdict)
  {
    if results == [] {
      SumRowsEmpty(names, verdict);
    } else {
      var init, r := results[..|results| - 1], results[|results| - 1];
      SumRowsAll(names, init, verdict);
      SumRowsSnoc(names, results, verdict);
      assert r.name in names;
    }
  }

  lemma {:induction false} SumRowsEmpty(names: seq<string>, verdict: bool)
    ensures SumRows(names, [], verdict) == 0
  {
    if names != [] { SumRowsEmpty(names[..|names| - 1], verdict); }
  }

  lemma {:induction false} SumRowsSnoc(names: seq<string>, results: seq<Row>, verdict: bool)
    requires results != [] && forall i, j | 0 <= i < j < |names| :: names[i] != names[j]
    ensures var r := results[|results| - 1];
            SumRows(names, results, verdict) == SumRows(names, results[..|results| - 1], verdict)
              + if r.name in names && r.ok == verdict then 1 else 0
  {
    if names != [] {
      var init, r := names[..|names| - 1], results[|results| - 1];
      SumRowsSnoc(init, results, verdict);
      assert names == init + [names[|names| - 1]];
      assert r.name in names <==> r.name in init || r.name == names[|names| - 1];
      assert r.name == names[|names| - 1] ==> r.name !in init;
    }
  }

  /**
   The tallies of a run: over all validators, the rejects-valid column sums to the wrong names of that
   bucket, and the accepts-invalid column to those of its bucket less the chains with a rewritten abstention.
  */
  lemma TalliesAddUp(cases: seq<Case>, enabled: seq<string>)
    requires AllFromEnabled(cases, enabled)
    ensures var s := Summarize(cases);
            && SumTally(enabled, s.rejectsValid, false) == SumWrong(s.rejectsValid)
            && SumTally(enabled, s.acceptsInvalid, true) == SumWrong(s.acceptsInvalid) - CountAbstained(cases, false)
  {
    Conservation(cases, enabled);
    var s := Summarize(cases);
    SumTallyIsRaw(enabled, s.rejectsValid, false);
    SumTallyIsRaw(enabled, s.acceptsInvalid, true);
  }

  // ---- from the pool's table to the chains that are classified ----

  /** A chain's results in canonical validator order, whatever order they were stored in. */
  function RowsFrom(row: map<string, Pool.Verdict>, enabled: seq<string>): seq<Row>
    requires forall name <- enabled :: name in row
  {
    seq(|enabled|, j requires 0 <= j < |enabled| =>
      assert enabled[j] in enabled; Row(enabled[j], row[enabled[j]].0, row[enabled[j]].1))
  }

  /**
   The rows assembled from the complete table come from the enabled validators, one each and in order, and
   carry their verdicts, so all theorems above apply to them for every completion order.
  */
  lemma CollectedRows(n: nat, enabled: seq<string>, verdict: Pool.Task -> Pool.Verdict, i: nat)
    requires i < n && enabled != [] && forall a, b | 0 <= a < b < |enabled| :: enabled[a] != enabled[b]
    ensures forall name <- enabled :: name in Pool.Complete(n, enabled, verdict)[i]
    ensures var rows := RowsFrom(Pool.Complete(n, enabled, verdict)[i], enabled);
            && FromEnabled(rows, enabled)
            && forall j | 0 <= j < |enabled| :: (rows[j].ok, rows[j].out) == verdict((i, enabled[j]))
  {
    assert forall j | 0 <= j < |enabled| :: enabled[j] in enabled;
  }

  /** Every chain has a result of every enabled validator. */
  ghost predicate Covers(table: Pool.Table, enabled: seq<string>) {
    forall i, name | 0 <= i < |table| && name in enabled :: name in table[i]
  }

  /** The chains that are classified: label and expected verdict, with the results found in the table. */
  function CasesFrom(chains: seq<(string, bool)>, enabled: seq<string>, table: Pool.Table): seq<Case>
    requires |table| == |chains| && Covers(table, enabled)
  {
    seq(|chains|, i requires 0 <= i < |chains| => Case(chains[i].0, chains[i].1, RowsFrom(table[i], enabled)))
  }

  /**
   Schedule independence, end to end: whatever two orders the submitted tasks finish in, the clean and
   abstention counts, both buckets with their records, and the outlier lists are the same; and they come
   from chains with the results of the enabled validators, to which all theorems above apply.
  */
  lemma ScheduleIndependent(chains: seq<(string, bool)>, enabled: seq<string>, order1: seq<Pool.Task>,
                            order2: seq<Pool.Task>, verdict: Pool.Task -> Pool.Verdict)
    requires enabled != [] && forall a, b | 0 <= a < b < |enabled| :: enabled[a] != enabled[b]
    requires multiset(order1) == multiset(order2) == multiset(Pool.Tasks(|chains|, enabled))
    ensures (forall t <- order1 :: t.0 < |chains|) && (forall t <- order2 :: t.0 < |chains|)
    ensures var table1, table2 := Pool.Stored(|chains|, order1, verdict), Pool.Stored(|chains|, order2, verdict);
            && Covers(table1, enabled) && Covers(table2, enabled)
            && AllFromEnabled(CasesFrom(chains, enabled, table1), enabled)
            && Summarize(CasesFrom(chains, enabled, table1)) == Summarize(CasesFrom(chains, enabled, table2))
  {
    hide Pool.Stored, Summarize;
    Pool.StoredIsComplete(|chains|, enabled, order1, verdict);
    Pool.StoredIsComplete(|chains|, enabled, order2, verdict);
    CompleteCovers(chains, enabled, verdict);
  }

  lemma CompleteCovers(chains: seq<(string, bool)>, enabled: seq<string>, verdict: Pool.Task -> Pool.Verdict)
    requires enabled != [] && forall a, b | 0 <= a < b < |enabled| :: enabled[a] != enabled[b]
    ensures Covers(Pool.Complete(|chains|, enabled, verdict), enabled)
    ensures AllFromEnabled(CasesFrom(chains, enabled, Pool.Complete(|chains|, enabled, verdict)), enabled)
  {
    forall i | 0 <= i < |chains|
      ensures FromEnabled(CasesFrom(chains, enabled, Pool.Complete(|chains|, enabled, verdict))[i].results, enabled)
    {
      CollectedRows(|chains|, enabled, verdict, i);
    }
  }

  /** The pool, the assembly of results and the classification, one after the other. */
  method RunHarness(chains: seq<(string, bool)>, enabled: seq<string>, order: seq<Pool.Task>,
                    outcome: Pool.Task -> Pool.Outcome, clean: (string, string) -> string)
    returns (s: Summary)
    requires enabled != [] && forall a, b | 0 <= a < b < |enabled| :: enabled[a] != enabled[b]
    requires multiset(order) == multiset(Pool.Tasks(|chains|, enabled))
    ensures var verdict := (t: Pool.Task) => Pool.VerdictOf(t.1, outcome(t), clean);
            && Covers(Pool.Complete(|chains|, enabled, verdict), enabled)
            && s == Summarize(CasesFrom(chains, enabled, Pool.Complete(|chains|, enabled, verdict)))
  {
    hide Summarize;
    ghost var verdict: Pool.Task -> Pool.Verdict := (t: Pool.Task) => Pool.VerdictOf(t.1, outcome(t), clean);
    var table := Pool.Collect(|chains|, enabled, order, outcome, clean);
    CompleteCovers(chains, enabled, verdict);
    var cases: seq<Case> := [];
    for i := 0 to |chains|
      invariant cases == CasesFrom(chains, enabled, table)[..i]
    {
      cases := cases + [Case(chains[i].0, chains[i].1, RowsFrom(table[i], enabled))];
    }
    assert cases == CasesFrom(chains, enabled, table);
    s := ClassifyAll(cases, enabled);
  }

  /**
   What a validator's call comes to: its row accepts if and only if the call finished and accepted, and a call
   that raised is a rejection that names the validator, the exception and its message.
  */
  lemma CallsBecomeRows(n: nat, enabled: seq<string>, outcome: Pool.Task -> Pool.Outcome,
                        clean: (string, string) -> string, i: nat, j: nat)
    requires i < n && j < |enabled| && forall a, b | 0 <= a < b < |enabled| :: enabled[a] != enabled[b]
    ensures var verdict := (t: Pool.Task) => Pool.VerdictOf(t.1, outcome(t), clean);
            && (forall name <- enabled :: name in Pool.Complete(n, enabled, verdict)[i])
            && var row := RowsFrom(Pool.Complete(n, enabled, verdict)[i], enabled)[j];
               var o := outcome((i, enabled[j]));
               && row.name == enabled[j]
               && (row.ok <==> o.Done? && o.ok)
               && (o.Done? ==> row.out == clean(enabled[j], o.out))
               && (o.Raised? ==> row.out == clean(enabled[j], enabled[j] + ": harness error: " + o.kind + ": " + o.message))
  {
    assert enabled[j] in enabled;
    CollectedRows(n, enabled, (t: Pool.Task) => Pool.VerdictOf(t.1, outcome(t), clean), i);
  }

  // ---- what the tallies count ----

  /** The rows of a record in which this validator gave this verdict. */
  function RowsOf(results: seq<Row>, name: string, verdict: bool): set<int> {
    set i | 0 <= i < |results| && results[i].name == name && results[i].ok == verdict
  }

  lemma {:induction false} CountsRows(results: seq<Row>, name: string, verdict: bool)
    ensures CountRows(results, name, verdict) == |RowsOf(results, name, verdict)|
  {
    if results != [] {
      var init, n := results[..|results| - 1], |results| - 1;
      CountsRows(init, name, verdict);
      var more: set<int> := if results[n].name == name && results[n].ok == verdict then {n} else {};
      assert RowsOf(results, name, verdict) == RowsOf(init, name, verdict) + more;
    }
  }

  /** The records in which this validator gave this verdict. */
  function RecordsOf(records: seq<Record>, name: string, verdict: bool): set<int> {
    set i | 0 <= i < |records| && RowsOf(records[i].results, name, verdict) != {}
  }

  lemma RecordsOfLast(records: seq<Record>, name: string, verdict: bool)
    requires records != []
    ensures var n := |records| - 1;
            && n !in RecordsOf(records[..n], name, verdict)
            && RecordsOf(records, name, verdict)
               == RecordsOf(records[..n], name, verdict)
                  + if RowsOf(records[n].results, name, verdict) != {} then {n} else {}
  {
    hide RowsOf;
    var n := |records| - 1;
    forall i ensures i in RecordsOf(records, name, verdict) <==>
                     i in RecordsOf(records[..n], name, verdict)
                     || (i == n && RowsOf(records[n].results, name, verdict) != {})
    {
      if 0 <= i < n { assert records[..n][i] == records[i]; }
    }
  }

  /** A validator's tally is the number of records in which it gave the verdict. */
  lemma {:induction false} TallyCounts(records: seq<Record>, enabled: seq<string>, name: string, verdict: bool)
    requires forall i | 0 <= i < |records| :: FromEnabled(records[i].results, enabled)
    ensures TallyFor(records, name, verdict) == |RecordsOf(records, name, verdict)|
  {
    if records == [] {
      assert RecordsOf(records, name, verdict) == {};
    } else {
      var n := |records| - 1;
      TallyCounts(records[..n], enabled, name, verdict);
      CountsRows(records[n].results, name, verdict);
      OneRowAtMost(records[n].results, enabled, name, verdict);
      RecordsOfLast(records, name, verdict);
      hide RecordsOf, RowsOf, CountRows, FromEnabled;
    }
  }

  lemma OneRowAtMost(results: seq<Row>, enabled: seq<string>, name: string, verdict: bool)
    requires FromEnabled(results, enabled)
    ensures |RowsOf(results, name, verdict)| == if RowsOf(results, name, verdict) != {} then 1 else 0
  {
    var s := RowsOf(results, name, verdict);
    if i :| i in s {
      forall j | j in s ensures j == i { assert enabled[j] == enabled[i]; }
      assert s == {i};
    }
  }
}
