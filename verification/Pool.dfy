/** The task pool: results collected as (chain, validator) tasks finish, in whatever order they do. */
module Pool {
  /** A finished validator call, or the exception it raised. */
  datatype Outcome = Done(ok: bool, out: string) | Raised(kind: string, message: string)

  type Task = (nat, string)
  type Verdict = (bool, string)
  type Table = seq<map<string, Verdict>>

  /** The verdict a task ends in: `_run_one` turns an exception into a rejection, then output is cleaned. */
  function VerdictOf(name: string, outcome: Outcome, clean: (string, string) -> string): Verdict {
    match outcome
    case Done(ok, out) => (ok, clean(name, out))
    case Raised(kind, message) => (false, clean(name, name + ": harness error: " + kind + ": " + message))
  }

  /** The submitted tasks, chain by chain. */
  function Tasks(n: nat, enabled: seq<string>): seq<Task> {
    if n == 0 then [] else Tasks(n - 1, enabled) + seq(|enabled|, j requires 0 <= j < |enabled| => (n - 1, enabled[j]))
  }

  lemma {:induction false} TaskMembers(n: nat, enabled: seq<string>, t: Task)
    ensures t in Tasks(n, enabled) <==> t.0 < n && t.1 in enabled
  {
    if n > 0 {
      TaskMembers(n - 1, enabled, t);
      var last := seq(|enabled|, j requires 0 <= j < |enabled| => (n - 1, enabled[j]));
      if t.0 == n - 1 && t.1 in enabled {
        var j :| 0 <= j < |enabled| && enabled[j] == t.1;
        assert last[j] == t;
      }
    }
  }

  /** The complete table: for every chain, one entry for every enabled validator and no other. */
  function Complete(n: nat, enabled: seq<string>, verdict: Task -> Verdict): Table {
    seq(n, i requires 0 <= i < n => map name | name in enabled :: verdict((i, name)))
  }

  /** One chain's entries after the tasks in `finished`. */
  predicate HoldsFinished(row: map<string, Verdict>, i: nat, finished: seq<Task>, verdict: Task -> Verdict) {
    && (forall name <- row :: (i, name) in finished && row[name] == verdict((i, name)))
    && (forall t <- finished :: t.0 == i ==> t.1 in row)
  }

  /** The table once the tasks of `order` have finished, in that order. */
  function Stored(n: nat, order: seq<Task>, verdict: Task -> Verdict): (r: Table)
    requires forall t <- order :: t.0 < n
    ensures |r| == n
  {
    if order == [] then seq(n, _ => map[])
    else
      var t := order[|order| - 1];
      assert t in order && forall u <- order[..|order| - 1] :: u in order;
      var before := Stored(n, order[..|order| - 1], verdict);
      before[t.0 := before[t.0][t.1 := verdict(t)]]
  }

  lemma {:induction false} StoredHoldsFinished(n: nat, order: seq<Task>, verdict: Task -> Verdict, i: nat)
    requires i < n && forall t <- order :: t.0 < n
    ensures HoldsFinished(Stored(n, order, verdict)[i], i, order, verdict)
  {
    if order != [] {
      var init, t := order[..|order| - 1], order[|order| - 1];
      assert t in order && forall u <- init :: u in order;
      StoredHoldsFinished(n, init, verdict, i);
      assert order == init + [t];
    }
  }

  /** Completion-order confluence: every permutation of the submitted tasks leads to the complete table. */
  lemma StoredIsComplete(n: nat, enabled: seq<string>, order: seq<Task>, verdict: Task -> Verdict)
    requires multiset(order) == multiset(Tasks(n, enabled))
    ensures forall t <- order :: t.0 < n
    ensures Stored(n, order, verdict) == Complete(n, enabled, verdict)
  {
    OrderMembers(n, enabled, order);
    forall i | 0 <= i < n ensures Stored(n, order, verdict)[i] == Complete(n, enabled, verdict)[i] {
      StoredHoldsFinished(n, order, verdict, i);
      FinishedRowIsComplete(Stored(n, order, verdict)[i], i, n, enabled, order, verdict);
    }
  }

  /**
   The collecting loop. Whatever permutation of the submitted tasks the pool delivers, the table ends as the
   complete one.
  */
  method Collect(n: nat, enabled: seq<string>, order: seq<Task>, outcome: Task -> Outcome,
                 clean: (string, string) -> string)
    returns (table: Table)
    requires multiset(order) == multiset(Tasks(n, enabled))
    ensures table == Complete(n, enabled, (t: Task) => VerdictOf(t.1, outcome(t), clean))
  {
    ghost var verdict: Task -> Verdict := (t: Task) => VerdictOf(t.1, outcome(t), clean);
    table := seq(n, _ => map[]);
    StoredIsComplete(n, enabled, order, verdict);
    for k := 0 to |order|
      invariant forall t <- order[..k] :: t.0 < n
      invariant table == Stored(n, order[..k], verdict)
    {
      var (i, name) := order[k];
      assert order[k] in order;
      assert order[..k + 1][..k] == order[..k] && order[..k + 1] == order[..k] + [order[k]];
      table := table[i := table[i][name := VerdictOf(name, outcome((i, name)), clean)]];
    }
    assert order[..|order|] == order;
  }

  lemma OrderMembers(n: nat, enabled: seq<string>, order: seq<Task>)
    requires multiset(order) == multiset(Tasks(n, enabled))
    ensures forall t: Task :: t in order <==> t.0 < n && t.1 in enabled
  {
    forall t: Task ensures t in order <==> t.0 < n && t.1 in enabled {
      TaskMembers(n, enabled, t);
      assert t in order <==> t in multiset(order);
      assert t in Tasks(n, enabled) <==> t in multiset(Tasks(n, enabled));
    }
  }

  lemma FinishedRowIsComplete(row: map<string, Verdict>, i: nat, n: nat, enabled: seq<string>, order: seq<Task>,
                              verdict: Task -> Verdict)
    requires i < n && HoldsFinished(row, i, order, verdict)
    requires forall t: Task :: t in order <==> t.0 < n && t.1 in enabled
    ensures row == map name | name in enabled :: verdict((i, name))
  {
    forall name ensures name in row <==> name in enabled {
      if name in enabled { assert (i, name) in order; }
    }
  }
}
