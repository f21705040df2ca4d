/**
 prv/remsvc_provider/triggers/remsvc.py: the analysis of a finished stream, the retry loop
 of run(), and what retries mean for the commands the server executes.
 */
module Trigger {
  import opened Common
  import opened Service
  import opened Stream

  // ----- events ------------------------------------------------------------------------------

  datatype JobState = SUCCESS | FAILED | CANCELLED

  datatype Detail = NoDetail | NoResponse(tids: set<int>) | NonZero(tids: set<int>)
                  | StreamTimedOut | NotRetried(code: Code, sent: nat) | GrpcFailed(code: Code)
                  | UnexpectedError | StubsMissing

  datatype Event = Event(state: JobState, results: map<int, Entry>, error: Detail)

  function FailedTids(results: map<int, Entry>): set<int> {
    set t | t in results && results[t].rc != 0
  }

  /** The end of _run_stream, for n commands. */
  function Analyse(n: nat, results: map<int, Entry>): Event {
    var missing := Tids(n) - results.Keys;
    if missing != {} then Event(FAILED, results, NoResponse(missing))
    else if FailedTids(results) != {} then Event(FAILED, results, NonZero(FailedTids(results)))
    else Event(SUCCESS, results, NoDetail)
  }

  predicate Retryable(code: Code) {
    code == UNAVAILABLE || code == RESOURCE_EXHAUSTED
  }

  /** Whether run() tries again after attempt number attempt of at most max. */
  predicate Retries(ending: Ending, sent: nat, attempt: nat, max: nat) {
    ending.GrpcError? && Retryable(ending.code) && attempt < max && sent == 0
  }

  /** The event run() yields when it does not try again. */
  function EventFor(n: nat, ending: Ending, sent: nat, results: map<int, Entry>, attempt: nat, max: nat): Event {
    match ending
    case Completed => Analyse(n, results)
    case TimedOut => Event(CANCELLED, map[], StreamTimedOut)
    case GrpcError(code) =>
      if Retryable(code) && attempt < max && sent > 0 then Event(FAILED, map[], NotRetried(code, sent))
      else Event(FAILED, map[], GrpcFailed(code))
    case Unexpected => Event(FAILED, map[], UnexpectedError)
  }

  // ----- what they mean, with the codes and the cases written out -------------------------------------

  /** Another attempt follows exactly a transient error before any write has returned, unless it was the last. */
  ghost predicate Transient(ending: Ending, sent: nat, attempt: nat, max: nat) {
    && (ending == GrpcError(UNAVAILABLE) || ending == GrpcError(RESOURCE_EXHAUSTED))
    && sent == 0 && attempt < max
  }

  lemma RetriesExactlyTransient(ending: Ending, sent: nat, attempt: nat, max: nat)
    ensures Retries(ending, sent, attempt, max) <==> Transient(ending, sent, attempt, max)
  {
  }

  /** The report on n commands whose stream completed: the tids without a response, if there are any; else
      those with a non-zero return code, if there are any; else SUCCESS.  The results go with it. */
  ghost predicate Analysed(n: nat, results: map<int, Entry>, e: Event) {
    && e.results == results
    && (e.state == SUCCESS <==> (forall t: int | 1 <= t <= n :: t in results)
                                && forall t | t in results :: results[t].rc == 0)
    && (e.state == FAILED <==> e.state != SUCCESS) && (e.error == NoDetail <==> e.state == SUCCESS)
    && (e.error.NoResponse? <==> exists t: int :: 1 <= t <= n && t !in results)
    && (e.error.NoResponse? ==> forall t: int :: t in e.error.tids <==> 1 <= t <= n && t !in results)
    && (e.state == FAILED && !e.error.NoResponse? ==>
          e.error.NonZero? && forall t: int :: t in e.error.tids <==> t in results && results[t].rc != 0)
  }

  lemma AnalyseMeans(n: nat, results: map<int, Entry>)
    ensures Analysed(n, results, Analyse(n, results))
  {
    var missing := Tids(n) - results.Keys;
    if missing != {} {
      var t :| t in missing;
      assert 1 <= t <= n && t !in results;
    } else {
      forall t: int | 1 <= t <= n
        ensures t in results
      {
        assert t in Tids(n);
      }
      if t :| t in results && results[t].rc != 0 {
        assert t in FailedTids(results);
      } else {
        assert forall t: int :: t !in FailedTids(results);
      }
    }
  }

  /** The one event for an attempt that is not followed by another. */
  ghost predicate Reported(n: nat, ending: Ending, sent: nat, results: map<int, Entry>, attempt: nat, max: nat,
                           e: Event)
  {
    match ending
    case Completed => Analysed(n, results, e)
    case TimedOut => e == Event(CANCELLED, map[], StreamTimedOut)
    case Unexpected => e == Event(FAILED, map[], UnexpectedError)
    case GrpcError(code) =>
      if (code == UNAVAILABLE || code == RESOURCE_EXHAUSTED) && attempt < max && sent > 0
      then e == Event(FAILED, map[], NotRetried(code, sent))
      else e == Event(FAILED, map[], GrpcFailed(code))
  }

  lemma EventForMeans(n: nat, ending: Ending, sent: nat, results: map<int, Entry>, attempt: nat, max: nat)
    ensures Reported(n, ending, sent, results, attempt, max, EventFor(n, ending, sent, results, attempt, max))
  {
    AnalyseMeans(n, results);
  }

  // ----- what the event says about its stream ----------------------------------------------------------

  ghost predicate AllZero(outcomes: seq<Outcome>) {
    forall i | 0 <= i < |outcomes| :: outcomes[i].rc == 0
  }

  /** A command with a non-zero return code whose reply arrived is among the failed. */
  lemma FailedIfNonZero(env: Env, outcomes: seq<Outcome>, results: map<int, Entry>, i: nat)
    requires i < |outcomes| && Correlates(env, outcomes, results, i + 1)
    ensures i + 1 in FailedTids(results) <==> outcomes[i].rc != 0
  {
  }

  lemma NoneFailedIffAllZero(env: Env, outcomes: seq<Outcome>, results: map<int, Entry>)
    requires results.Keys == Tids(|outcomes|)
    requires forall t | t in results :: Correlates(env, outcomes, results, t)
    ensures FailedTids(results) == {} <==> AllZero(outcomes)
  {
    forall i: nat | i < |outcomes|
      ensures i + 1 in FailedTids(results) <==> outcomes[i].rc != 0
    {
      FailedIfNonZero(env, outcomes, results, i);
    }
    if t :| t in FailedTids(results) {
      assert outcomes[t - 1].rc != 0;
    }
  }

  /** The analysis of a completed stream: "No response" for exactly the lost replies, if there are any,
      and else SUCCESS exactly when every command returned zero. */
  lemma AnalysisOfCompleted(env: Env, s: State)
    requires WellFormed(env) && Inv(env, s) && s.ending == Some(Completed)
    ensures var e := Analyse(|env.requests|, s.results);
            && (e.error.NoResponse? <==> s.lost != {})
            && (e.error.NoResponse? ==> e.error.tids == s.lost)
            && (e.state == SUCCESS <==> s.lost == {} && AllZero(s.outcomes))
  {
    CompletedStream(env, s);
    assert Tids(|env.requests|) - s.results.Keys == s.lost;
    if s.lost == {} {
      assert s.results.Keys == Tids(|s.outcomes|);
      NoneFailedIffAllZero(env, s.outcomes, s.results);
    }
  }

  /** What the event of a stream that has ended means, whatever was lost or failed. */
  ghost predicate EventMeans(env: Env, s: State, e: Event) {
    && (e.state == SUCCESS <==> s.ending == Some(Completed) && s.lost == {} && AllZero(s.outcomes))
    && (e.error.NoResponse? <==> s.ending == Some(Completed) && s.lost != {})
    && (e.error.NoResponse? ==> e.error.tids == s.lost)
    && (e.state == SUCCESS ==>
          && s.executed == env.requests && |s.outcomes| == |env.requests|
          && e.results.Keys == Tids(|env.requests|)
          && forall t: int | 1 <= t <= |env.requests| :: Correlates(env, s.outcomes, e.results, t))
  }

  lemma AllCorrelate(env: Env, s: State)
    requires WellFormed(env) && Inv(env, s) && s.ending == Some(Completed) && s.lost == {}
    ensures s.results.Keys == Tids(|env.requests|)
    ensures forall t: int | 1 <= t <= |env.requests| :: Correlates(env, s.outcomes, s.results, t)
  {
    CompletedStream(env, s);
    assert Tids(|env.requests|) - {} == Tids(|env.requests|);
  }

  lemma EventOfCompleted(env: Env, s: State, e: Event)
    requires WellFormed(env) && Inv(env, s) && s.ending == Some(Completed)
    requires e == Analyse(|env.requests|, s.results)
    ensures EventMeans(env, s, e)
  {
    AnalysisOfCompleted(env, s);
    assert e.results == s.results;
    if s.lost == {} {
      AllCorrelate(env, s);
      CompletedStream(env, s);
    }
  }

  lemma EventOfStream(env: Env, s: State, attempt: nat, max: nat)
    requires WellFormed(env) && Inv(env, s) && s.ending.Some?
    ensures EventMeans(env, s, EventFor(|env.requests|, s.ending.value, s.sent, s.results, attempt, max))
  {
    if s.ending == Some(Completed) {
      EventOfCompleted(env, s, Analyse(|env.requests|, s.results));
    }
  }

  /** Every command is permitted, passes the integrity check and returned zero. */
  ghost predicate AllSucceed(env: Env, s: State) {
    && (forall i | 0 <= i < |env.requests| :: env.gate(env.requests[i]).None?)
    && AllZero(s.outcomes)
  }

  /** An attempt without faults that has ended yields SUCCESS exactly when every command is
      permitted and returned zero; the "No response" event is never its result, and it is not retried. */
  lemma SuccessIffAllSucceed(env: Env, run: seq<Action>, s: State, attempt: nat, max: nat)
    requires WellFormed(env) && FaultFree(run) && Reaches(env, run, s) && s.ending.Some?
    ensures !Retries(s.ending.value, s.sent, attempt, max)
    ensures var e := EventFor(|env.requests|, s.ending.value, s.sent, s.results, attempt, max);
            && (e.state == SUCCESS <==> AllSucceed(env, s))
            && !e.error.NoResponse?
            && (e.state == SUCCESS ==> e.results.Keys == Tids(|env.requests|))
  {
    var k := FirstRefused(env.gate, env.requests);
    ReachedInv(env, run, s);
    FaultFreeEnding(env, run, s);
    EventOfStream(env, s, attempt, max);
    if k < |env.requests| {
      assert env.gate(env.requests[k]).Some?;
    }
  }

  // ----- attempts as one machine ---------------------------------------------------------------------

  /**
   cur: the stream of the current attempt; earlier: those of the attempts before it, whose messages the
   server may still take; history: the requests run, on any of the streams, in order.
   */
  datatype RunState = RunState(attempt: nat, cur: State, earlier: seq<State>,
                               history: seq<RemCmdMsg>, event: Option<Event>)

  /** Settle: run() sees how the attempt ended.  Later: the server goes on with an earlier stream, to which
      its writer hands nothing more. */
  datatype RunAction = Inside(a: Action) | Later(stream: nat, a: Action) | Settle

  function Begin(): RunState {
    RunState(1, Start(), [], [], None)
  }

  /** The requests that an action runs. */
  function Ran(env: Env, s: State, a: Action): seq<RemCmdMsg>
    requires Enabled(env, s, a)
  {
    if a.ServerTake? && env.gate(s.toServer[0]).None? then [s.toServer[0]] else []
  }

  predicate RunEnabled(env: Env, r: RunState, a: RunAction) {
    match a
    case Inside(b) => Enabled(env, r.cur, b)
    case Later(i, b) => i < |r.earlier| && ByServer(b) && Enabled(env, r.earlier[i], b)
    case Settle => r.event.None? && r.cur.ending.Some?
  }

  function RunApply(env: Env, max: nat, r: RunState, a: RunAction): RunState
    requires RunEnabled(env, r, a)
  {
    match a
    case Inside(b) => r.(cur := Apply(env, r.cur, b), history := r.history + Ran(env, r.cur, b))
    case Later(i, b) =>
      r.(earlier := r.earlier[i := Apply(env, r.earlier[i], b)], history := r.history + Ran(env, r.earlier[i], b))
    case Settle =>
      var end := r.cur.ending.value;
      if Retries(end, r.cur.sent, r.attempt, max)
      then r.(attempt := r.attempt + 1, cur := Start(), earlier := r.earlier + [r.cur])
      else r.(event := Some(EventFor(|env.requests|, end, r.cur.sent, r.cur.results, r.attempt, max)))
  }

  function RunAll(env: Env, max: nat, acts: seq<RunAction>): Option<RunState>
    decreases |acts|
  {
    if acts == [] then Some(Begin())
    else
      var n := |acts| - 1;
      match RunAll(env, max, acts[..n])
      case Some(r) => if RunEnabled(env, r, acts[n]) then Some(RunApply(env, max, r, acts[n])) else None
      case None => None
  }

  ghost predicate RunsTo(env: Env, max: nat, acts: seq<RunAction>, r: RunState) {
    RunAll(env, max, acts) == Some(r)
  }

  lemma RunExtend(env: Env, max: nat, acts: seq<RunAction>, r: RunState, a: RunAction)
    requires RunsTo(env, max, acts, r) && RunEnabled(env, r, a)
    ensures RunsTo(env, max, acts + [a], RunApply(env, max, r, a))
  {
    assert (acts + [a])[..|acts|] == acts;
  }

  lemma RunLast(env: Env, max: nat, acts: seq<RunAction>, r: RunState) returns (before: RunState)
    requires RunsTo(env, max, acts, r) && acts != []
    ensures var n := |acts| - 1;
            && RunsTo(env, max, acts[..n], before)
            && RunEnabled(env, before, acts[n]) && r == RunApply(env, max, before, acts[n])
  {
    before := RunAll(env, max, acts[..|acts| - 1]).value;
  }

  /** An earlier stream: it failed before any of its writes had returned. */
  ghost predicate EarlierInv(env: Env, s: State) {
    && Inv(env, s) && s.sent == 0
    && (s.ending == Some(GrpcError(UNAVAILABLE)) || s.ending == Some(GrpcError(RESOURCE_EXHAUSTED)))
  }

  /** The event is the one for the attempt that ended last. */
  ghost predicate EventInv(env: Env, max: nat, r: RunState) {
    r.event.Some? ==>
      && r.cur.ending.Some?
      && !Retries(r.cur.ending.value, r.cur.sent, r.attempt, max)
      && r.event.value == EventFor(|env.requests|, r.cur.ending.value, r.cur.sent, r.cur.results, r.attempt, max)
  }

  ghost predicate RetryInv(env: Env, max: nat, r: RunState) {
    && 1 <= r.attempt <= max
    && |r.earlier| == r.attempt - 1
    && Inv(env, r.cur)
    && (forall i | 0 <= i < |r.earlier| :: EarlierInv(env, r.earlier[i]))
    && EventInv(env, max, r)
  }

  lemma EarlierStep(env: Env, s: State, b: Action)
    requires WellFormed(env) && EarlierInv(env, s) && ByServer(b) && Enabled(env, s, b)
    ensures EarlierInv(env, Apply(env, s, b))
  {
    StepInv(env, s, b);
  }

  lemma LaterKeepsInv(env: Env, max: nat, r: RunState, i: nat, b: Action)
    requires WellFormed(env) && RetryInv(env, max, r) && RunEnabled(env, r, Later(i, b))
    ensures RetryInv(env, max, RunApply(env, max, r, Later(i, b)))
  {
    var s := r.earlier[i];
    assert EarlierInv(env, s);
    EarlierStep(env, s, b);
    var streams := r.earlier[i := Apply(env, s, b)];
    forall j | 0 <= j < |streams|
      ensures EarlierInv(env, streams[j])
    {
      assert j != i ==> streams[j] == r.earlier[j];
    }
  }

  /** Once the stream has ended for the client, what its event depends on no longer changes. */
  lemma EndedStep(env: Env, s: State, b: Action)
    requires Enabled(env, s, b) && s.ending.Some?
    ensures var t := Apply(env, s, b);
            t.ending == s.ending && t.sent == s.sent && t.results == s.results
  {
  }

  lemma InsideKeepsInv(env: Env, max: nat, r: RunState, b: Action)
    requires WellFormed(env) && RetryInv(env, max, r) && RunEnabled(env, r, Inside(b))
    ensures RetryInv(env, max, RunApply(env, max, r, Inside(b)))
  {
    StepInv(env, r.cur, b);
    if r.cur.ending.Some? {
      EndedStep(env, r.cur, b);
    }
  }

  lemma RetryKeepsInv(env: Env, max: nat, r: RunState)
    requires WellFormed(env) && RetryInv(env, max, r) && RunEnabled(env, r, Settle)
    requires Retries(r.cur.ending.value, r.cur.sent, r.attempt, max)
    ensures RetryInv(env, max, RunApply(env, max, r, Settle))
  {
    StartInv(env);
    var streams := r.earlier + [r.cur];
    forall i | 0 <= i < |streams|
      ensures EarlierInv(env, streams[i])
    {
      if i < |r.earlier| {
        assert streams[i] == r.earlier[i];
      }
    }
  }

  lemma EventKeepsInv(env: Env, max: nat, r: RunState)
    requires RetryInv(env, max, r) && RunEnabled(env, r, Settle)
    requires !Retries(r.cur.ending.value, r.cur.sent, r.attempt, max)
    ensures RetryInv(env, max, RunApply(env, max, r, Settle))
  {
  }

  lemma SettleKeepsInv(env: Env, max: nat, r: RunState)
    requires WellFormed(env) && RetryInv(env, max, r) && RunEnabled(env, r, Settle)
    ensures RetryInv(env, max, RunApply(env, max, r, Settle))
  {
    if Retries(r.cur.ending.value, r.cur.sent, r.attempt, max) {
      RetryKeepsInv(env, max, r);
    } else {
      EventKeepsInv(env, max, r);
    }
  }

  lemma {:induction false} RetryRunInv(env: Env, max: nat, acts: seq<RunAction>, r: RunState)
    requires WellFormed(env) && max >= 1 && RunsTo(env, max, acts, r)
    ensures RetryInv(env, max, r)
    decreases |acts|
  {
    if acts == [] {
      StartInv(env);
    } else {
      var n := |acts| - 1;
      var before := RunLast(env, max, acts, r);
      RetryRunInv(env, max, acts[..n], before);
      match acts[n]
      case Inside(b) => InsideKeepsInv(env, max, before, b);
      case Later(i, b) => LaterKeepsInv(env, max, before, i, b);
      case Settle => SettleKeepsInv(env, max, before);
    }
  }

  /** Over every run: the streams of earlier attempts failed with a transient code before any of their writes had
      returned, there are fewer of them than attempts allowed, and the event reports on a stream that
      is not of this kind, or that was the last allowed. */
  lemma OnlyTransientIsRetried(env: Env, max: nat, acts: seq<RunAction>, r: RunState)
    requires WellFormed(env) && max >= 1 && RunsTo(env, max, acts, r)
    ensures |r.earlier| == r.attempt - 1 < max
    ensures forall i | 0 <= i < |r.earlier| ::
              && r.earlier[i].sent == 0
              && (r.earlier[i].ending == Some(GrpcError(UNAVAILABLE))
                  || r.earlier[i].ending == Some(GrpcError(RESOURCE_EXHAUSTED)))
    ensures r.event.Some? ==>
              var s := r.cur;
              && s.ending.Some? && !Transient(s.ending.value, s.sent, r.attempt, max)
              && Reported(|env.requests|, s.ending.value, s.sent, s.results, r.attempt, max, r.event.value)
  {
    RetryRunInv(env, max, acts, r);
    forall i | 0 <= i < |r.earlier|
      ensures EarlierInv(env, r.earlier[i])
    {
    }
    if r.event.Some? {
      RetriesExactlyTransient(r.cur.ending.value, r.cur.sent, r.attempt, max);
      EventForMeans(|env.requests|, r.cur.ending.value, r.cur.sent, r.cur.results, r.attempt, max);
    }
  }

  /** Over all retries, losses and faults: the event is SUCCESS exactly when the stream of the last attempt
      completed, lost no reply and every command returned zero, and then it ran every command once, in
      order, and the results are theirs; "No response" names exactly the lost replies. */
  lemma SuccessIsSoundAndComplete(env: Env, max: nat, acts: seq<RunAction>, r: RunState)
    requires WellFormed(env) && max >= 1 && RunsTo(env, max, acts, r) && r.event.Some?
    ensures EventMeans(env, r.cur, r.event.value)
  {
    RetryRunInv(env, max, acts, r);
    EventOfStream(env, r.cur, r.attempt, max);
  }

  // ----- sums over the earlier streams ----------------------------------------------------------------

  function Total(f: State -> int, streams: seq<State>): int
    decreases |streams|
  {
    if streams == [] then 0 else Total(f, streams[..|streams| - 1]) + f(streams[|streams| - 1])
  }

  lemma TotalNext(f: State -> int, streams: seq<State>, s: State)
    ensures Total(f, streams + [s]) == Total(f, streams) + f(s)
  {
    assert (streams + [s])[..|streams|] == streams;
  }

  lemma {:induction false} TotalUpdate(f: State -> int, streams: seq<State>, i: nat, s: State)
    requires i < |streams|
    ensures Total(f, streams[i := s]) == Total(f, streams) - f(streams[i]) + f(s)
    decreases |streams|
  {
    var n := |streams| - 1;
    if i == n {
      assert streams[i := s][..n] == streams[..n];
    } else {
      assert streams[i := s][..n] == streams[..n][i := s];
      TotalUpdate(f, streams[..n], i, s);
    }
  }

  lemma {:induction false} TotalBounds(f: State -> int, streams: seq<State>, most: nat)
    requires forall i | 0 <= i < |streams| :: 0 <= f(streams[i]) <= most
    ensures 0 <= Total(f, streams) <= most * |streams|
    decreases |streams|
  {
    if streams == [] {
    } else {
      TotalBounds(f, streams[..|streams| - 1], most);
    }
  }

  // ----- how often a command is executed -------------------------------------------------------------

  /** The number of messages with this tid. */
  function Times(history: seq<RemCmdMsg>, tid: int): nat
    decreases |history|
  {
    if history == [] then 0
    else Times(history[..|history| - 1], tid) + if history[|history| - 1].tid == tid then 1 else 0
  }

  function RunsOf(tid: int): State -> int {
    (s: State) => Times(s.executed, tid)
  }

  lemma TimesNext(history: seq<RemCmdMsg>, req: RemCmdMsg, tid: int)
    ensures Times(history + [req], tid) == Times(history, tid) + if req.tid == tid then 1 else 0
  {
    assert (history + [req])[..|history|] == history;
  }

  /** An action adds to the history what it adds to the requests run on its stream. */
  lemma RanIsCounted(env: Env, s: State, a: Action, history: seq<RemCmdMsg>, tid: int)
    requires Enabled(env, s, a)
    ensures Times(history + Ran(env, s, a), tid) - Times(history, tid)
            == RunsOf(tid)(Apply(env, s, a)) - RunsOf(tid)(s)
  {
    if Ran(env, s, a) == [] {
      assert history + Ran(env, s, a) == history;
    } else {
      TimesNext(history, s.toServer[0], tid);
      TimesNext(s.executed, s.toServer[0], tid);
    }
  }

  /** Everything in the history was run on some stream. */
  lemma {:induction false} HistoryIsSum(env: Env, max: nat, acts: seq<RunAction>, r: RunState, tid: int)
    requires RunsTo(env, max, acts, r)
    ensures Times(r.history, tid) == RunsOf(tid)(r.cur) + Total(RunsOf(tid), r.earlier)
    decreases |acts|
  {
    if acts == [] {
    } else {
      var n := |acts| - 1;
      var before := RunLast(env, max, acts, r);
      HistoryIsSum(env, max, acts[..n], before, tid);
      match acts[n]
      case Inside(b) => RanIsCounted(env, before.cur, b, before.history, tid);
      case Later(i, b) =>
        RanIsCounted(env, before.earlier[i], b, before.history, tid);
        TotalUpdate(RunsOf(tid), before.earlier, i, r.earlier[i]);
      case Settle => TotalNext(RunsOf(tid), before.earlier, before.cur);
    }
  }

  /** Nothing is run but what the client numbered. */
  ghost predicate Original(env: Env, history: seq<RemCmdMsg>) {
    forall i | 0 <= i < |history| :: history[i] in env.requests
  }

  lemma RanIsOriginal(env: Env, s: State, a: Action, history: seq<RemCmdMsg>)
    requires Inv(env, s) && Enabled(env, s, a) && Original(env, history)
    ensures Original(env, history + Ran(env, s, a))
  {
    if Ran(env, s, a) != [] {
      NextRequest(env, s);
    }
  }

  lemma {:induction false} HistoryIsOriginal(env: Env, max: nat, acts: seq<RunAction>, r: RunState)
    requires WellFormed(env) && max >= 1 && RunsTo(env, max, acts, r)
    ensures Original(env, r.history)
    decreases |acts|
  {
    if acts == [] {
    } else {
      var n := |acts| - 1;
      var before := RunLast(env, max, acts, r);
      HistoryIsOriginal(env, max, acts[..n], before);
      RetryRunInv(env, max, acts[..n], before);
      match acts[n]
      case Inside(b) => RanIsOriginal(env, before.cur, b, before.history);
      case Later(i, b) =>
        assert EarlierInv(env, before.earlier[i]);
        RanIsOriginal(env, before.earlier[i], b, before.history);
      case Settle =>
    }
  }

  lemma {:induction false} TimesFirst(env: Env, n: nat, tid: int)
    requires WellFormed(env) && n <= |env.requests|
    ensures Times(env.requests[..n], tid) == if 1 <= tid <= n then 1 else 0
    decreases n
  {
    if n == 0 {
    } else {
      assert env.requests[..n][..n - 1] == env.requests[..n - 1];
      TimesFirst(env, n - 1, tid);
    }
  }

  /** Nothing can reach the server twice: it sees a write only once the write has returned, there is
      no second attempt, or the first command is refused (or there is none). */
  ghost predicate SafeToRetry(env: Env, max: nat) {
    env.deliverAfterReturn || max == 1 || FirstRefused(env.gate, env.requests) == 0
  }

  /** Where no write has returned, at most the first command can have been run. */
  lemma UnsentRanAtMostFirst(env: Env, s: State, tid: int)
    requires WellFormed(env) && EarlierInv(env, s)
    ensures RunsOf(tid)(s)
            <= if tid == 1 && !env.deliverAfterReturn && FirstRefused(env.gate, env.requests) > 0 then 1 else 0
  {
    TimesFirst(env, |s.executed|, tid);
  }

  lemma EarlierRuns(env: Env, max: nat, r: RunState, tid: int)
    requires WellFormed(env) && RetryInv(env, max, r)
    ensures Total(RunsOf(tid), r.earlier) <= if tid == 1 && !SafeToRetry(env, max) then |r.earlier| else 0
  {
    var most := if tid == 1 && !SafeToRetry(env, max) then 1 else 0;
    forall i | 0 <= i < |r.earlier|
      ensures 0 <= RunsOf(tid)(r.earlier[i]) <= most
    {
      assert EarlierInv(env, r.earlier[i]);
      UnsentRanAtMostFirst(env, r.earlier[i], tid);
    }
    TotalBounds(RunsOf(tid), r.earlier, most);
  }

  lemma CurrentRuns(env: Env, s: State, tid: int)
    requires WellFormed(env) && Inv(env, s)
    ensures RunsOf(tid)(s) <= 1
  {
    TimesFirst(env, |s.executed|, tid);
  }

  /** Over every run, with drops at any step, and with the messages of failed attempts taken at any later
      time: a command other than the first executes at most once, the first at most once an attempt, every
      command at most once where retrying is safe, and only what the client numbered is executed. */
  lemma ExecutionCounts(env: Env, max: nat, acts: seq<RunAction>, r: RunState, tid: int)
    requires WellFormed(env) && max >= 1 && RunsTo(env, max, acts, r)
    ensures r.attempt <= max
    ensures Times(r.history, tid) <= if tid == 1 then r.attempt else 1
    ensures SafeToRetry(env, max) ==> Times(r.history, tid) <= 1
    ensures Original(env, r.history)
  {
    RetryRunInv(env, max, acts, r);
    HistoryIsSum(env, max, acts, r, tid);
    HistoryIsOriginal(env, max, acts, r);
    CurrentRuns(env, r.cur, tid);
    EarlierRuns(env, max, r, tid);
  }

  lemma RunStep(env: Env, max: nat, acts: seq<RunAction>, r: RunState, a: RunAction)
    returns (acts': seq<RunAction>, r': RunState)
    requires RunsTo(env, max, acts, r) && RunEnabled(env, r, a)
    ensures RunsTo(env, max, acts', r') && acts' == acts + [a] && r' == RunApply(env, max, r, a)
  {
    RunExtend(env, max, acts, r, a);
    acts', r' := acts + [a], RunApply(env, max, r, a);
  }

  /** The first write of an attempt is delivered, and does not return. */
  lemma Delivered(env: Env, max: nat, acts: seq<RunAction>, r: RunState, outcome: Outcome)
    returns (acts': seq<RunAction>, r': RunState)
    requires WellFormed(env) && FirstRefused(env.gate, env.requests) > 0 && !env.deliverAfterReturn
    requires RunsTo(env, max, acts, r) && r.cur == Start()
    ensures RunsTo(env, max, acts', r') && acts' == acts + [Inside(Push), Inside(ServerTake(outcome))]
    ensures r' == r.(cur := r'.cur, history := r.history + [env.requests[0]])
    ensures r'.cur.sent == 0 && r'.cur.ending.None?
  {
    acts', r' := RunStep(env, max, acts, r, Inside(Push));
    assert r'.history == r.history;
    acts', r' := RunStep(env, max, acts', r', Inside(ServerTake(outcome)));
  }

  /** The transport fails before the first write has returned, and run() tries again. */
  lemma GivenUp(env: Env, max: nat, acts: seq<RunAction>, r: RunState)
    returns (acts': seq<RunAction>, r': RunState)
    requires RunsTo(env, max, acts, r) && r.attempt == 1 < max && r.event.None?
    requires r.cur.sent == 0 && r.cur.ending.None?
    ensures RunsTo(env, max, acts', r') && acts' == acts + [Inside(Drop(GrpcError(UNAVAILABLE))), Settle]
    ensures r' == RunState(2, Start(), r.earlier + [r.cur.(ending := Some(GrpcError(UNAVAILABLE)))], r.history, None)
  {
    acts', r' := RunStep(env, max, acts, r, Inside(Drop(GrpcError(UNAVAILABLE))));
    assert r'.history == r.history;
    acts', r' := RunStep(env, max, acts', r', Settle);
  }

  /** The first message is taken before that. */
  lemma TakenBeforeRetry(env: Env, max: nat, outcome: Outcome) returns (acts: seq<RunAction>, r: RunState)
    requires WellFormed(env) && max >= 1 && !SafeToRetry(env, max)
    ensures RunsTo(env, max, acts, r) && |acts| == 4 && acts[3] == Settle
    ensures r.cur == Start() && r.history == [env.requests[0]]
  {
    acts, r := Delivered(env, max, [], Begin(), outcome);
    acts, r := GivenUp(env, max, acts, r);
  }

  lemma Pushed(env: Env, max: nat) returns (acts: seq<RunAction>, r: RunState)
    requires WellFormed(env) && env.requests != []
    ensures RunsTo(env, max, acts, r) && acts == [Inside(Push)]
    ensures r.attempt == 1 && r.earlier == [] && r.history == [] && r.event.None?
    ensures r.cur.sent == 0 && r.cur.toServer == [env.requests[0]] && r.cur.server == Reading && r.cur.ending.None?
  {
    acts, r := RunStep(env, max, [], Begin(), Inside(Push));
  }

  /** The server takes the one message of an earlier stream. */
  lemma TakenLate(env: Env, max: nat, acts: seq<RunAction>, r: RunState, req: RemCmdMsg, outcome: Outcome)
    returns (acts': seq<RunAction>, r': RunState)
    requires RunsTo(env, max, acts, r) && env.gate(req).None? && !env.deliverAfterReturn
    requires |r.earlier| == 1 && r.earlier[0].server == Reading && r.earlier[0].toServer == [req]
    ensures RunsTo(env, max, acts', r') && acts' == acts + [Later(0, ServerTake(outcome))]
    ensures r'.cur == r.cur && r'.history == r.history + [req]
  {
    acts', r' := RunStep(env, max, acts, r, Later(0, ServerTake(outcome)));
  }

  /** The first message is taken only after the client has given the attempt up. */
  lemma TakenAfterRetry(env: Env, max: nat, outcome: Outcome) returns (acts: seq<RunAction>, r: RunState)
    requires WellFormed(env) && max >= 1 && !SafeToRetry(env, max)
    ensures RunsTo(env, max, acts, r) && |acts| == 4 && acts[3] == Later(0, ServerTake(outcome))
    ensures r.cur == Start() && r.history == [env.requests[0]]
  {
    acts, r := Pushed(env, max);
    acts, r := GivenUp(env, max, acts, r);
    acts, r := TakenLate(env, max, acts, r, env.requests[0], outcome);
  }

  lemma TwiceIsTwo(req: RemCmdMsg)
    ensures Times([req] + [req], req.tid) == 2
  {
    assert [] + [req] == [req];
    TimesNext([], req, req.tid);
    TimesNext([req], req, req.tid);
  }

  /** Where retrying is not safe there is a run that executes the first command twice; it makes no
      difference whether the server takes the first message before or after the retry. */
  lemma DuplicateRun(env: Env, max: nat, late: bool, outcome: Outcome) returns (acts: seq<RunAction>, r: RunState)
    requires WellFormed(env) && max >= 1 && !SafeToRetry(env, max)
    ensures RunsTo(env, max, acts, r) && Times(r.history, 1) == 2
    ensures |acts| == 6 && acts[3] == if late then Later(0, ServerTake(outcome)) else Settle
  {
    var req := env.requests[0];
    if late {
      acts, r := TakenAfterRetry(env, max, outcome);
    } else {
      acts, r := TakenBeforeRetry(env, max, outcome);
    }
    acts, r := Delivered(env, max, acts, r, outcome);
    TwiceIsTwo(req);
  }

  /** No command is ever executed twice exactly when retrying is safe. */
  lemma AtMostOnceIffSafeToRetry(env: Env, max: nat)
    requires WellFormed(env) && max >= 1
    ensures SafeToRetry(env, max) <==>
            forall acts, r, tid :: RunsTo(env, max, acts, r) ==> Times(r.history, tid) <= 1
  {
    if SafeToRetry(env, max) {
      forall acts, r, tid | RunsTo(env, max, acts, r)
        ensures Times(r.history, tid) <= 1
      {
        ExecutionCounts(env, max, acts, r, tid);
      }
    } else {
      var acts, r := DuplicateRun(env, max, false, Outcome(0, [], []));
    }
  }

  // ----- every run ends, with one event ---------------------------------------------------------------------

  /** The steps of one attempt, Settle included. */
  function AttemptSteps(env: Env): nat {
    5 * |env.requests| + 4
  }

  function StepsLeft(env: Env): State -> int {
    (s: State) => Remaining(env, s)
  }

  function RunRemaining(env: Env, max: nat, r: RunState): int {
    (max - r.attempt) * AttemptSteps(env) + StepsLeft(env)(r.cur) + Total(StepsLeft(env), r.earlier)
    + if r.event.Some? then 0 else 1
  }

  lemma CurrentDecreases(env: Env, max: nat, r: RunState, t: RunState)
    requires t.attempt == r.attempt && t.earlier == r.earlier && t.event == r.event
    requires Remaining(env, t.cur) < Remaining(env, r.cur)
    ensures RunRemaining(env, max, t) < RunRemaining(env, max, r)
  {
  }

  lemma InsideDecreases(env: Env, max: nat, r: RunState, b: Action)
    requires RetryInv(env, max, r) && RunEnabled(env, r, Inside(b))
    ensures RunRemaining(env, max, RunApply(env, max, r, Inside(b))) < RunRemaining(env, max, r)
  {
    StepDecreases(env, r.cur, b);
    CurrentDecreases(env, max, r, RunApply(env, max, r, Inside(b)));
  }

  lemma LaterDecreases(env: Env, max: nat, r: RunState, i: nat, b: Action)
    requires RetryInv(env, max, r) && RunEnabled(env, r, Later(i, b))
    ensures RunRemaining(env, max, RunApply(env, max, r, Later(i, b))) < RunRemaining(env, max, r)
  {
    assert EarlierInv(env, r.earlier[i]);
    StepDecreases(env, r.earlier[i], b);
    TotalUpdate(StepsLeft(env), r.earlier, i, Apply(env, r.earlier[i], b));
  }

  lemma RetryDecreases(env: Env, max: nat, r: RunState)
    requires RunEnabled(env, r, Settle) && Retries(r.cur.ending.value, r.cur.sent, r.attempt, max)
    ensures RunRemaining(env, max, RunApply(env, max, r, Settle)) < RunRemaining(env, max, r)
  {
    var m, left := AttemptSteps(env), max - r.attempt;
    assert (left - 1) * m == left * m - m;
    TotalNext(StepsLeft(env), r.earlier, r.cur);
    assert StepsLeft(env)(Start()) == m - 1;
  }

  lemma SettleDecreases(env: Env, max: nat, r: RunState)
    requires RunEnabled(env, r, Settle)
    ensures RunRemaining(env, max, RunApply(env, max, r, Settle)) < RunRemaining(env, max, r)
  {
    if Retries(r.cur.ending.value, r.cur.sent, r.attempt, max) {
      RetryDecreases(env, max, r);
    }
  }

  lemma NonNegativeProduct(a: nat, b: nat)
    ensures a * b >= 0
  {
  }

  lemma {:induction false} TotalNonNegative(env: Env, streams: seq<State>)
    requires forall i | 0 <= i < |streams| :: EarlierInv(env, streams[i])
    ensures Total(StepsLeft(env), streams) >= 0
    decreases |streams|
  {
    if streams == [] {
    } else {
      var n := |streams| - 1;
      assert EarlierInv(env, streams[n]);
      RemainingNonNegative(env, streams[n]);
      TotalNonNegative(env, streams[..n]);
    }
  }

  lemma RunRemainingNonNegative(env: Env, max: nat, r: RunState)
    requires RetryInv(env, max, r)
    ensures RunRemaining(env, max, r) >= 0
  {
    RemainingNonNegative(env, r.cur);
    NonNegativeProduct(max - r.attempt, AttemptSteps(env));
    TotalNonNegative(env, r.earlier);
  }

  lemma {:induction false} RunsEnd(env: Env, max: nat, acts: seq<RunAction>, r: RunState)
    requires WellFormed(env) && max >= 1 && RunsTo(env, max, acts, r)
    ensures |acts| + RunRemaining(env, max, r) <= max * AttemptSteps(env)
    decreases |acts|
  {
    if acts == [] {
      var m := AttemptSteps(env);
      assert (max - 1) * m == max * m - m;
    } else {
      var n := |acts| - 1;
      var before := RunLast(env, max, acts, r);
      RetryRunInv(env, max, acts[..n], before);
      RunsEnd(env, max, acts[..n], before);
      match acts[n]
      case Inside(b) => InsideDecreases(env, max, before, b);
      case Later(i, b) => LaterDecreases(env, max, before, i, b);
      case Settle => SettleDecreases(env, max, before);
    }
  }

  /** The trigger never hangs: within a bounded number of steps it has yielded its event, and until then
      some party can move without a fault. */
  lemma OneEventAlways(env: Env, max: nat, acts: seq<RunAction>, r: RunState)
    requires WellFormed(env) && max >= 1 && env.client == Concurrent && RunsTo(env, max, acts, r)
    ensures |acts| <= max * AttemptSteps(env)
    ensures r.event.None? ==>
              RunEnabled(env, r, Settle) || exists a: Action :: RunEnabled(env, r, Inside(a)) && !IsFault(a)
  {
    RetryRunInv(env, max, acts, r);
    RunsEnd(env, max, acts, r);
    RunRemainingNonNegative(env, max, r);
    if r.event.None? && r.cur.ending.None? {
      var a := ConcurrentMove(env, r.cur, Outcome(0, [], []));
      assert RunEnabled(env, r, Inside(a));
    }
  }

  // ----- run() --------------------------------------------------------------------------------------------------

  const MAX_ATTEMPTS: nat := 3
  const BACKOFF_BASE_S := 1.0
  const BACKOFF_MAX_S := 16.0

  function Power2(n: nat): real {
    if n == 0 then 1.0 else 2.0 * Power2(n - 1)
  }

  /** The pause after attempt number attempt. */
  function Delay(base: real, cap: real, attempt: nat): real
    requires attempt >= 1
  {
    var d := base * Power2(attempt - 1);
    if d <= cap then d else cap
  }

  lemma DelayDoubles(base: real, cap: real, attempt: nat)
    requires base >= 0.0 && cap >= 0.0 && attempt >= 1
    ensures Delay(base, cap, 1) == if base <= cap then base else cap
    ensures var twice := 2.0 * Delay(base, cap, attempt);
            Delay(base, cap, attempt + 1) == if twice <= cap then twice else cap
  {
    var p := Power2(attempt - 1);
    assert Power2(0) == 1.0;
    assert base * (2.0 * p) == 2.0 * (base * p);
  }

  /** The pauses with the constants of the trigger: 1, 2, 4, 8 and then always 16 seconds. */
  lemma {:induction false} DefaultDelays(attempt: nat)
    requires attempt >= 1
    ensures Delay(BACKOFF_BASE_S, BACKOFF_MAX_S, attempt)
            == if attempt == 1 then 1.0 else if attempt == 2 then 2.0
               else if attempt == 3 then 4.0 else if attempt == 4 then 8.0 else 16.0
    decreases attempt
  {
    DelayDoubles(BACKOFF_BASE_S, BACKOFF_MAX_S, if attempt == 1 then 1 else attempt - 1);
    if attempt == 1 {
    } else {
      DefaultDelays(attempt - 1);
    }
  }

  /** How an attempt ended, what sent_ref and the results held, and how long it took. */
  datatype AttemptEnd = AttemptEnd(ending: Ending, sent: nat, results: map<int, Entry>, seconds: real)

  /** The time of the first made attempts and the pauses between them. */
  function Elapsed(attempts: nat -> AttemptEnd, base: real, cap: real, made: nat): real
    requires made >= 1
  {
    attempts(made).seconds
    + if made == 1 then 0.0
      else Elapsed(attempts, base, cap, made - 1) + Delay(base, cap, made - 1)
  }

  function Backoffs(base: real, cap: real, n: nat): real {
    if n == 0 then 0.0 else Backoffs(base, cap, n - 1) + Delay(base, cap, n)
  }

  /** The sum of what the first made attempts took. */
  function Seconds(attempts: nat -> AttemptEnd, made: nat): real {
    if made == 0 then 0.0 else Seconds(attempts, made - 1) + attempts(made).seconds
  }

  /** The time is that of the attempts and the pauses between them, no more and no less. */
  lemma {:induction false} ElapsedExactly(attempts: nat -> AttemptEnd, base: real, cap: real, made: nat)
    requires made >= 1
    ensures Elapsed(attempts, base, cap, made) == Seconds(attempts, made) + Backoffs(base, cap, made - 1)
    decreases made
  {
    if made == 1 {
      assert Seconds(attempts, 0) == 0.0;
    } else {
      ElapsedExactly(attempts, base, cap, made - 1);
    }
  }

  /** Three attempts with the constants of the trigger. */
  lemma DefaultElapsed(attempts: nat -> AttemptEnd)
    ensures var a, b := BACKOFF_BASE_S, BACKOFF_MAX_S;
            && Elapsed(attempts, a, b, 1) == attempts(1).seconds
            && Elapsed(attempts, a, b, 2) == attempts(1).seconds + 1.0 + attempts(2).seconds
            && Elapsed(attempts, a, b, 3)
               == attempts(1).seconds + 1.0 + attempts(2).seconds + 2.0 + attempts(3).seconds
  {
    DefaultDelays(1);
    DefaultDelays(2);
  }

  lemma {:induction false} ElapsedBound(attempts: nat -> AttemptEnd, base: real, cap: real, made: nat, longest: real)
    requires made >= 1
    requires forall a: nat :: attempts(a).seconds <= longest
    ensures Elapsed(attempts, base, cap, made) <= made as real * longest + Backoffs(base, cap, made - 1)
    decreases made
  {
    if made == 1 {
    } else {
      ElapsedBound(attempts, base, cap, made - 1, longest);
      assert (made - 1) as real * longest + longest == made as real * longest;
    }
  }

  lemma {:induction false} PowerPositive(n: nat)
    ensures Power2(n) >= 1.0
    decreases n
  {
    if n == 0 {
    } else {
      PowerPositive(n - 1);
    }
  }

  lemma {:induction false} BackoffsMonotone(base: real, cap: real, m: nat, n: nat)
    requires base >= 0.0 && cap >= 0.0 && m <= n
    ensures 0.0 <= Backoffs(base, cap, m) <= Backoffs(base, cap, n)
    decreases n
  {
    if n == 0 {
    } else {
      PowerPositive(n - 1);
      assert Delay(base, cap, n) >= 0.0;
      if m < n {
        BackoffsMonotone(base, cap, m, n - 1);
      } else {
        BackoffsMonotone(base, cap, n - 1, n - 1);
      }
    }
  }

  lemma RealProductMonotone(a: real, b: real, c: real)
    requires a <= b && c >= 0.0
    ensures a * c <= b * c
  {
  }

  /** n attempts of at most longest seconds each, with the pauses between them. */
  lemma TimeBound(attempts: nat -> AttemptEnd, base: real, cap: real, made: nat, n: nat, longest: real)
    requires 1 <= made <= n && longest >= 0.0 && base >= 0.0 && cap >= 0.0
    requires forall a: nat :: attempts(a).seconds <= longest
    ensures Elapsed(attempts, base, cap, made) <= n as real * longest + Backoffs(base, cap, n - 1)
  {
    var p, q := made as real * longest, n as real * longest;
    assert p <= q by {
      RealProductMonotone(made as real, n as real, longest);
    }
    assert Elapsed(attempts, base, cap, made) <= p + Backoffs(base, cap, made - 1) by {
      ElapsedBound(attempts, base, cap, made, longest);
    }
    BackoffsMonotone(base, cap, made - 1, n - 1);
  }

  /** With the constants of the trigger: three attempts of at most T seconds take at most 3 T + 3. */
  lemma DefaultTimeBound(attempts: nat -> AttemptEnd, made: nat, longest: real)
    requires 1 <= made <= MAX_ATTEMPTS && longest >= 0.0
    requires forall a: nat :: attempts(a).seconds <= longest
    ensures Elapsed(attempts, BACKOFF_BASE_S, BACKOFF_MAX_S, made) <= 3.0 * longest + 3.0
  {
    TimeBound(attempts, BACKOFF_BASE_S, BACKOFF_MAX_S, made, MAX_ATTEMPTS, longest);
    assert Power2(0) == 1.0 && Power2(1) == 2.0;
    assert Backoffs(BACKOFF_BASE_S, BACKOFF_MAX_S, 2) == 3.0;
  }

  /** The bound is met: attempts of exactly longest seconds, all of them made, take that long. */
  lemma DefaultTimeBoundIsMet(attempts: nat -> AttemptEnd, longest: real)
    requires forall a: nat :: attempts(a).seconds == longest
    ensures Elapsed(attempts, BACKOFF_BASE_S, BACKOFF_MAX_S, MAX_ATTEMPTS) == 3.0 * longest + 3.0
  {
    DefaultElapsed(attempts);
  }

  /** run(), for attempts that end as given and n commands: one event, that of the first attempt
      that is not retried, and the time it takes. */
  method RunTrigger(stubsAvailable: bool, n: nat, max: nat, attempts: nat -> AttemptEnd, base: real, cap: real)
    returns (events: seq<Event>, made: nat, elapsed: real)
    requires max >= 1
    ensures |events| == 1
    ensures !stubsAvailable ==> made == 0 && elapsed == 0.0 && events == [Event(FAILED, map[], StubsMissing)]
    ensures stubsAvailable ==>
              && 1 <= made <= max
              && (forall a: nat | 1 <= a < made :: Transient(attempts(a).ending, attempts(a).sent, a, max))
              && !Transient(attempts(made).ending, attempts(made).sent, made, max)
              && Reported(n, attempts(made).ending, attempts(made).sent, attempts(made).results, made, max, events[0])
              && elapsed == Elapsed(attempts, base, cap, made)
  {
    events, made, elapsed := [], 0, 0.0;
    if !stubsAvailable {
      events := events + [Event(FAILED, map[], StubsMissing)];
      return;
    }
    while made < max
      invariant 0 <= made < max && events == []
      invariant forall a: nat | 1 <= a <= made :: Transient(attempts(a).ending, attempts(a).sent, a, max)
      invariant elapsed == if made == 0 then 0.0 else Elapsed(attempts, base, cap, made) + Delay(base, cap, made)
    {
      made := made + 1;
      var attempt := attempts(made);
      elapsed := elapsed + attempt.seconds;
      match attempt.ending {
        case Completed =>
          AnalyseMeans(n, attempt.results);
          events := events + [Analyse(n, attempt.results)];
          return;
        case TimedOut =>
          events := events + [Event(CANCELLED, map[], StreamTimedOut)];
          return;
        case GrpcError(code) =>
          if Retryable(code) && made < max {
            if attempt.sent > 0 {
              events := events + [Event(FAILED, map[], NotRetried(code, attempt.sent))];
              return;
            }
            elapsed := elapsed + Delay(base, cap, made);
            continue;
          }
          events := events + [Event(FAILED, map[], GrpcFailed(code))];
          return;
        case Unexpected =>
          events := events + [Event(FAILED, map[], UnexpectedError)];
          return;
      }
    }
  }
}
