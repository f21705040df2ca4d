/**
 prv/remsvc_provider/operators/remsvc.py: what execute_complete makes of the trigger's event.
 */
module Operator {
  import opened Service
  import opened Stream
  import opened Trigger
  import opened Ordering

  function IntLe(): (le: (int, int) -> bool)
    ensures TotalOrder(le)
  {
    (a: int, b: int) => a <= b
  }

  function ValuesAt(results: map<int, Entry>, tids: seq<int>): (list: seq<Entry>)
    requires forall i | 0 <= i < |tids| :: tids[i] in results
    ensures |list| == |tids| && forall i :: 0 <= i < |tids| ==> list[i] == results[tids[i]]
  {
    seq(|tids|, i requires 0 <= i < |tids| => results[tids[i]])
  }

  /** _default_result_handler: the values in ascending order of tid. */
  ghost function DefaultResultHandler(results: map<int, Entry>): (list: seq<Entry>)
    ensures |list| == |results|
  {
    var tids := Sorted(results.Keys, IntLe());
    assert forall i | 0 <= i < |tids| :: tids[i] in tids;
    ValuesAt(results, tids)
  }

  datatype Completion = XCom(results: seq<Entry>) | AirflowException(state: JobState, error: Detail)

  /** execute_complete with the default handler. */
  ghost function ExecuteComplete(event: Event): (c: Completion)
    ensures c.XCom? <==> event.state == SUCCESS
    ensures c.AirflowException? ==> c.state == event.state && c.error == event.error
  {
    if event.state != SUCCESS then AirflowException(event.state, event.error)
    else XCom(DefaultResultHandler(event.results))
  }

  /** {k + 1, ..., n} */
  ghost function Span(k: nat, n: nat): (s: set<int>)
    requires k <= n
    ensures forall t :: t in s <==> k < t <= n
    decreases n - k
  {
    if k == n then {} else {k + 1} + Span(k + 1, n)
  }

  /** [k + 1, ..., n] */
  function Upwards(k: nat, n: nat): seq<int>
    requires k <= n
    decreases n - k
  {
    if k == n then [] else [k + 1] + Upwards(k + 1, n)
  }

  lemma {:induction false} UpwardsAt(k: nat, n: nat, i: nat)
    requires k <= n && i < n - k
    ensures |Upwards(k, n)| == n - k && Upwards(k, n)[i] == k + 1 + i
    decreases n - k
  {
    if k + 1 == n {
      assert Upwards(k + 1, n) == [];
    } else {
      UpwardsAt(k + 1, n, if i == 0 then 0 else i - 1);
    }
  }

  lemma LeastOfSpan(k: nat, n: nat, le: (int, int) -> bool)
    requires k < n && le == IntLe()
    ensures IsLeast(Span(k, n), le, k + 1)
    ensures Span(k, n) - {k + 1} == Span(k + 1, n)
  {
    assert k + 1 in Span(k, n);
  }

  lemma {:induction false} SortedSpan(k: nat, n: nat, le: (int, int) -> bool)
    requires k <= n && le == IntLe() && TotalOrder(le)
    ensures Sorted(Span(k, n), le) == Upwards(k, n)
    decreases n - k
  {
    if k == n {
    } else {
      LeastOfSpan(k, n, le);
      SortedUnfold(Span(k, n), le, k + 1);
      SortedSpan(k + 1, n, le);
    }
  }

  lemma SortedTids(n: nat)
    ensures Sorted(Tids(n), IntLe()) == Upwards(0, n)
  {
    SortedSpan(0, n, IntLe());
    assert Span(0, n) == Tids(n);
  }

  lemma UpwardsAre(n: nat)
    ensures |Upwards(0, n)| == n && forall i: nat | i < n :: Upwards(0, n)[i] == i + 1
  {
    if n == 0 {
      assert Upwards(0, n) == [];
    } else {
      UpwardsAt(0, n, 0);
      forall i: nat | i < n
        ensures Upwards(0, n)[i] == i + 1
      {
        UpwardsAt(0, n, i);
      }
    }
  }

  /** For results with exactly the keys 1..N the handler lists them in command order. */
  lemma HandlerListsInOrder(results: map<int, Entry>, n: nat)
    requires results.Keys == Tids(n)
    ensures var list := DefaultResultHandler(results);
            |list| == n && forall i: nat | i < n :: list[i] == results[i + 1]
  {
    var tids := Sorted(results.Keys, IntLe());
    assert |tids| == n && forall i: nat | i < n :: tids[i] == i + 1 by {
      SortedTids(n);
      UpwardsAre(n);
    }
  }

  /** An entry that reports success of command i. */
  ghost predicate Reports(env: Env, outcomes: seq<Outcome>, i: nat, entry: Entry)
    requires i < |outcomes| == |env.requests|
  {
    && entry.tid == i + 1 && entry.cmd == env.requests[i].cmd
    && entry.rc == outcomes[i].rc == 0
    && entry.out == Truncate(outcomes[i].out) && entry.err == Truncate(outcomes[i].err)
  }

  lemma CorrelatedReports(env: Env, outcomes: seq<Outcome>, results: map<int, Entry>, i: nat)
    requires i < |outcomes| == |env.requests| && AllZero(outcomes) && Correlates(env, outcomes, results, i + 1)
    ensures Reports(env, outcomes, i, results[i + 1])
  {
  }

  /** What reaches XCom, over all retries, losses and faults: after SUCCESS one entry a command, in the order of
      the commands, each with its tid, its command text, its output and a zero return code. */
  lemma XComMatchesCommands(env: Env, max: nat, acts: seq<RunAction>, r: RunState)
    requires WellFormed(env) && max >= 1 && RunsTo(env, max, acts, r) && r.event.Some?
    ensures match ExecuteComplete(r.event.value)
            case XCom(list) =>
              && r.event.value.state == SUCCESS
              && |list| == |env.requests| == |r.cur.outcomes|
              && r.cur.executed == env.requests
              && forall i: nat | i < |list| :: Reports(env, r.cur.outcomes, i, list[i])
            case AirflowException(state, error) =>
              state == r.event.value.state != SUCCESS && error == r.event.value.error
  {
    var e := r.event.value;
    SuccessIsSoundAndComplete(env, max, acts, r);
    if e.state == SUCCESS {
      HandlerListsInOrder(e.results, |env.requests|);
      var list := DefaultResultHandler(e.results);
      forall i: nat | i < |list|
        ensures Reports(env, r.cur.outcomes, i, list[i])
      {
        CorrelatedReports(env, r.cur.outcomes, e.results, i);
      }
    }
  }
}
