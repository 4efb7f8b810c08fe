/**
 Classification of the collected verdicts: Go's abstention, the clean count, the two buckets, the
 single-validator outliers, and the per-validator tallies.
 */
module Verdicts {
  import opened Bytes
  import opened Text

  const GO: string := "go"
  const ABSTENTION: string := "x509: unhandled critical extension"
  const ALONE_ACCEPTING: string := "alone in accepting"
  const ALONE_REJECTING: string := "alone in rejecting"

  /** `(name, ok, output)`. */
  datatype Row = Row(name: string, ok: bool, out: string)

  /** One chain of the run: its label, the expected verdict, and the raw results in canonical order. */
  datatype Case = Case(chain: string, expected: bool, results: seq<Row>)

  /** The results come from the enabled validators, in order, and there is at least one. */
  predicate FromEnabled(results: seq<Row>, enabled: seq<string>) {
    && enabled != [] && |results| == |enabled|
    && (forall i | 0 <= i < |enabled| :: results[i].name == enabled[i])
    && (forall i, j | 0 <= i < j < |enabled| :: enabled[i] != enabled[j])
  }

  // ---- one chain ----

  predicate AllOk(results: seq<Row>) {
    forall i | 0 <= i < |results| :: results[i].ok
  }

  predicate AllAre(results: seq<Row>, verdict: bool) {
    forall i | 0 <= i < |results| :: results[i].ok == verdict
  }

  function Others(results: seq<Row>): seq<Row> {
    if results == [] then []
    else if results[0].name == GO then Others(results[1..])
    else [results[0]] + Others(results[1..])
  }

  /** The index of Go's result, `|results|` if Go did not run. */
  function GoIndex(results: seq<Row>): (i: nat)
    ensures i <= |results|
    ensures i < |results| ==> results[i].name == GO
    ensures forall k | 0 <= k < i :: results[k].name != GO
  {
    if results == [] || results[0].name == GO then 0 else 1 + GoIndex(results[1..])
  }

  /** Go abstains: it fails with its abstention message while every other validator accepts. */
  predicate Abstains(results: seq<Row>) {
    var g := GoIndex(results);
    && g < |results| && |results| > 1
    && !results[g].ok && IsSubstring(ABSTENTION, results[g].out) && AllOk(Others(results))
  }

  /** The results used for categorisation: an abstention counts as an acceptance. */
  function Adjusted(results: seq<Row>): (r: seq<Row>)
    ensures |r| == |results|
  {
    if Abstains(results) then results[GoIndex(results) := results[GoIndex(results)].(ok := true)] else results
  }

  predicate AllAgree(results: seq<Row>) {
    results != [] && (AllAre(results, true) || AllAre(results, false))
  }

  predicate IsClean(c: Case) {
    AllAgree(Adjusted(c.results)) && AllAre(Adjusted(c.results), c.expected)
  }

  /** The names whose verdict differs from `expected`. */
  function WrongNames(results: seq<Row>, expected: bool): seq<string> {
    if results == [] then []
    else (if results[0].ok != expected then [results[0].name] else []) + WrongNames(results[1..], expected)
  }

  datatype Record = Record(chain: string, expected: bool, results: seq<Row>, wrongNames: seq<string>, universal: bool)

  function RecordOf(c: Case): Record {
    var adjusted := Adjusted(c.results);
    var wrong := WrongNames(adjusted, c.expected);
    Record(c.chain, c.expected, c.results, wrong, |wrong| == |adjusted|)
  }

  function NamesWith(results: seq<Row>, verdict: bool): seq<string> {
    if results == [] then []
    else (if results[0].ok == verdict then [results[0].name] else []) + NamesWith(results[1..], verdict)
  }

  /** The outlier entry of a chain, from the raw results. */
  function OutlierOf(results: seq<Row>): Option<(string, string)> {
    var valid, invalid := NamesWith(results, true), NamesWith(results, false);
    if |results| < 3 then None
    else if |valid| == 1 && |invalid| >= 2 then Some((valid[0], ALONE_ACCEPTING))
    else if |invalid| == 1 && |valid| >= 2 then Some((invalid[0], ALONE_REJECTING))
    else None
  }

  // ---- the whole run ----

  datatype Summary = Summary(
    clean: nat, goAbstained: nat, acceptsInvalid: seq<Record>, rejectsValid: seq<Record>,
    outliers: map<(string, string), seq<string>>)

  /** `outliers.setdefault(key, []).append(chain)`. */
  function AddOutlier(outliers: map<(string, string), seq<string>>, key: (string, string), chain: string)
    : map<(string, string), seq<string>>
  {
    outliers[key := (if key in outliers then outliers[key] else []) + [chain]]
  }

  function Classify(s: Summary, c: Case): Summary {
    var s1 := if Abstains(c.results) then s.(goAbstained := s.goAbstained + 1) else s;
    var s2 := if IsClean(c) then s1.(clean := s1.clean + 1)
              else if !c.expected then s1.(acceptsInvalid := s1.acceptsInvalid + [RecordOf(c)])
              else s1.(rejectsValid := s1.rejectsValid + [RecordOf(c)]);
    var o := OutlierOf(c.results);
    if o.Some? then s2.(outliers := AddOutlier(s2.outliers, o.value, c.chain)) else s2
  }

  function Summarize(cases: seq<Case>): Summary {
    if cases == [] then Summary(0, 0, [], [], map[])
    else Classify(Summarize(cases[..|cases| - 1]), cases[|cases| - 1])
  }

  /** The classification loop of `main`. */
  method ClassifyAll(cases: seq<Case>, enabled: seq<string>) returns (s: Summary)
    requires forall c <- cases :: FromEnabled(c.results, enabled)
    ensures s == Summarize(cases)
  {
    hide IsSubstring, NamesWith, WrongNames, AllAre, Others, GoIndex, AddOutlier;
    var clean, goAbstained := 0, 0;
    var acceptsInvalid: seq<Record>, rejectsValid: seq<Record> := [], [];
    var outliers: map<(string, string), seq<string>> := map[];
    for i := 0 to |cases|
      invariant Summary(clean, goAbstained, acceptsInvalid, rejectsValid, outliers) == Summarize(cases[..i])
    {
      var c := cases[i];
      assert cases[..i + 1][..i] == cases[..i] && c in cases;
      var results := c.results;
      var adjusted := results;
      if GO in enabled && |results| > 1 {
        GoIsFound(results, enabled);
        var goIdx := GoIndex(results);
        if !results[goIdx].ok && IsSubstring(ABSTENTION, results[goIdx].out) && AllOk(Others(results)) {
          adjusted := adjusted[goIdx := results[goIdx].(ok := true)];
          goAbstained := goAbstained + 1;
        }
      } else {
        GoIsAbsent(results, enabled);
      }
      assert adjusted == Adjusted(results);
      if AllAgree(adjusted) && AllAre(adjusted, c.expected) {
        clean := clean + 1;
      } else {
        var wrongNames := WrongNames(adjusted, c.expected);
        var record := Record(c.chain, c.expected, results, wrongNames, |wrongNames| == |adjusted|);
        if !c.expected { acceptsInvalid := acceptsInvalid + [record]; } else { rejectsValid := rejectsValid + [record]; }
      }
      if |results| >= 3 {
        var validNames, invalidNames := NamesWith(results, true), NamesWith(results, false);
        if |validNames| == 1 && |invalidNames| >= 2 {
          outliers := AddOutlier(outliers, (validNames[0], ALONE_ACCEPTING), c.chain);
        } else if |invalidNames| == 1 && |validNames| >= 2 {
          outliers := AddOutlier(outliers, (invalidNames[0], ALONE_REJECTING), c.chain);
        }
      }
    }
    assert cases[..|cases|] == cases;
    s := Summary(clean, goAbstained, acceptsInvalid, rejectsValid, outliers);
  }

  lemma GoIsFound(results: seq<Row>, enabled: seq<string>)
    requires FromEnabled(results, enabled) && GO in enabled
    ensures GoIndex(results) < |results|
  {
    var i :| 0 <= i < |enabled| && enabled[i] == GO;
    assert results[i].name == GO;
  }

  lemma GoIsAbsent(results: seq<Row>, enabled: seq<string>)
    requires FromEnabled(results, enabled) && (GO !in enabled || |results| <= 1)
    ensures !Abstains(results)
  {
    var g := GoIndex(results);
    assert g < |results| ==> results[g].name == enabled[g] && enabled[g] in enabled;
  }
}
