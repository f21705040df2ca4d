/**
 One RemCmdStrm call as a step machine: the client's writer and reader
 (prv/remsvc_provider/triggers/remsvc.py, _run_stream; src/client/RemSvcClient.cc,
 doRemCmdStrm), two FIFO channels of bounded capacity, and the sequential server loop
 (src/server/RemSvcServiceImpl.cc, processStream).

 A run is a sequence of actions, each enabled where it happens, so a statement about all
 runs is a statement about every interleaving of the three parties and every outcome of the
 commands.  The server's steps do not depend on the client still being there: what has been
 handed over can be taken, run and answered after the stream has ended for the client.
 */
module Stream {
  import opened Common
  import opened Service

  // ----- configuration ---------------------------------------------------------------------

  /** The provider reads while it writes; the C++ client writes everything first. */
  datatype Client = Concurrent | WriteThenRead

  /** deliverAfterReturn: the server sees a message only once the client's write has returned. */
  datatype Env = Env(gate: Gate, requests: seq<RemCmdMsg>,
                     requestCapacity: nat, responseCapacity: nat,
                     client: Client, deliverAfterReturn: bool)

  /** Channels hold at least one message, a refusal is not a success, and the tid of a request is its
      position, from one. */
  ghost predicate WellFormed(env: Env) {
    && env.requestCapacity >= 1 && env.responseCapacity >= 1
    && forall i | 0 <= i < |env.requests| ::
         env.requests[i].tid == i + 1 && env.gate(env.requests[i]) != Some(Ok)
  }

  // ----- state --------------------------------------------------------------------------------

  datatype Code = PERMISSION_DENIED | INVALID_ARGUMENT | UNAVAILABLE | RESOURCE_EXHAUSTED
                | DEADLINE_EXCEEDED | OTHER

  /** How a stream ends for the client. */
  datatype Ending = Completed | GrpcError(code: Code) | TimedOut | Unexpected

  datatype Server = Reading | Writing(res: RemResMsg) | Ended(status: Status)

  /** A value of the provider's results dictionary. */
  datatype Entry = Entry(tid: int, rc: int, out: Bytes, err: Bytes, hsh: string, cmd: Bytes)

  /**
   pushed: messages handed to the transport; sent: writes that have returned (sent_ref[0]);
   closed: the client has half-closed; executed: the requests the server ran, in order;
   outcomes: what the runner made of them; lost: the tids whose reply a failed Write dropped;
   received: every response read, in order; results: what the reader made of them.
   */
  datatype State = State(pushed: nat, sent: nat, closed: bool,
                         toServer: seq<RemCmdMsg>, server: Server,
                         executed: seq<RemCmdMsg>, outcomes: seq<Outcome>, lost: set<int>,
                         toClient: seq<RemResMsg>,
                         received: seq<RemResMsg>, results: map<int, Entry>,
                         ending: Option<Ending>)

  function Start(): State {
    State(0, 0, false, [], Reading, [], [], {}, [], [], map[], None)
  }

  // ----- actions --------------------------------------------------------------------------------

  datatype Action =
    | Push                         // stream.write hands a message to the transport ...
    | Return                       // ... and returns; sent_ref[0] += 1
    | Close                        // done_writing / WritesDone
    | WriteFails                   // a write on a stream the server has ended
    | ServerTake(outcome: Outcome) // Read, the two checks, and the runner with its outcome
    | ServerWrite                  // stream.Write
    | ServerLose                   // stream.Write fails, which the server ignores
    | ServerEof                    // Read reports the half-close
    | ReaderTake                   // one response
    | ReaderEnd                    // no more responses: the status arrives
    | Drop(ending: Ending)         // transport failure, deadline, or an error in the client

  predicate ByServer(a: Action) {
    a.ServerTake? || a.ServerWrite? || a.ServerLose? || a.ServerEof?
  }

  predicate IsFault(a: Action) {
    a.Drop? || a.ServerLose?
  }

  function CodeOf(status: Status): Code
    requires status != Ok
  {
    if status.PermissionDenied? then PERMISSION_DENIED else INVALID_ARGUMENT
  }

  function EntryOf(env: Env, res: RemResMsg): Entry {
    Entry(res.tid, res.rc, res.out, res.err, res.hsh,
          if 0 < res.tid <= |env.requests| then env.requests[res.tid - 1].cmd else [])
  }

  predicate CanRead(env: Env, s: State) {
    env.client == WriteThenRead ==> s.closed
  }

  /** Requests the server has read. */
  function Taken(s: State): int {
    s.pushed - |s.toServer|
  }

  predicate Enabled(env: Env, s: State, a: Action) {
    && (s.ending.None? || ByServer(a))
    && match a
       case Push =>
         s.sent == s.pushed < |env.requests| && !s.closed && !s.server.Ended?
         && |s.toServer| < env.requestCapacity
       case Return => s.sent < s.pushed
       case Close => !s.closed && s.sent == |env.requests|
       case WriteFails => !s.closed && s.server.Ended? && s.server.status != Ok
       case ServerTake(_) =>
         s.server.Reading? && s.toServer != [] && (env.deliverAfterReturn ==> Taken(s) < s.sent)
       case ServerWrite => s.server.Writing? && |s.toClient| < env.responseCapacity
       case ServerLose => s.server.Writing?
       case ServerEof => s.server.Reading? && s.toServer == [] && s.closed
       case ReaderTake => CanRead(env, s) && s.toClient != []
       case ReaderEnd => CanRead(env, s) && s.toClient == [] && s.server.Ended?
       case Drop(e) => e != Completed
  }

  function Take(env: Env, s: State, outcome: Outcome): State
    requires s.toServer != []
  {
    var req := s.toServer[0];
    match env.gate(req)
    case Some(status) => s.(toServer := s.toServer[1..], server := Ended(status))
    case None =>
      s.(toServer := s.toServer[1..],
         executed := s.executed + [req],
         outcomes := s.outcomes + [outcome],
         server := Writing(ReplyTo(req, outcome)))
  }

  function Apply(env: Env, s: State, a: Action): State
    requires Enabled(env, s, a)
  {
    match a
    case Push => s.(pushed := s.pushed + 1, toServer := s.toServer + [env.requests[s.pushed]])
    case Return => s.(sent := s.sent + 1)
    case Close => s.(closed := true)
    case WriteFails =>
      // The provider's write raises the stream's status; the C++ client stops writing.
      if env.client == Concurrent then s.(ending := Some(GrpcError(CodeOf(s.server.status))))
      else s.(closed := true)
    case ServerTake(outcome) => Take(env, s, outcome)
    case ServerWrite => s.(toClient := s.toClient + [s.server.res], server := Reading)
    case ServerLose => s.(lost := s.lost + {s.server.res.tid}, server := Reading)
    case ServerEof => s.(server := Ended(Ok))
    case ReaderTake =>
      s.(toClient := s.toClient[1..],
         received := s.received + [s.toClient[0]],
         results := s.results[s.toClient[0].tid := EntryOf(env, s.toClient[0])])
    case ReaderEnd =>
      s.(ending := Some(if s.server.status == Ok then Completed else GrpcError(CodeOf(s.server.status))))
    case Drop(e) => s.(ending := Some(e))
  }

  // ----- runs --------------------------------------------------------------------------------------

  /** The state after a run, if every action of it is enabled. */
  function Run(env: Env, run: seq<Action>): Option<State>
    decreases |run|
  {
    if run == [] then Some(Start())
    else
      var n := |run| - 1;
      match Run(env, run[..n])
      case Some(s) => if Enabled(env, s, run[n]) then Some(Apply(env, s, run[n])) else None
      case None => None
  }

  ghost predicate Reaches(env: Env, run: seq<Action>, s: State) {
    Run(env, run) == Some(s)
  }

  lemma Extend(env: Env, run: seq<Action>, s: State, a: Action)
    requires Reaches(env, run, s) && Enabled(env, s, a)
    ensures Reaches(env, run + [a], Apply(env, s, a))
  {
    assert (run + [a])[..|run|] == run;
  }

  /** The last step of a run. */
  lemma Last(env: Env, run: seq<Action>, s: State) returns (before: State)
    requires Reaches(env, run, s) && run != []
    ensures var n := |run| - 1;
            && Reaches(env, run[..n], before)
            && Enabled(env, before, run[n]) && s == Apply(env, before, run[n])
  {
    before := Run(env, run[..|run| - 1]).value;
  }

  ghost predicate FaultFree(run: seq<Action>) {
    forall i | 0 <= i < |run| :: !IsFault(run[i])
  }

  /** Nothing can happen, short of a fault. */
  ghost predicate Quiet(env: Env, s: State) {
    forall a: Action :: Enabled(env, s, a) ==> IsFault(a)
  }

  ghost predicate Stuck(env: Env, s: State) {
    s.ending.None? && Quiet(env, s)
  }

  /** What can go wrong: any failure at any time before the end, and the loss of any reply. */
  lemma FaultsAnywhere(env: Env, s: State, e: Ending)
    ensures Enabled(env, s, Drop(e)) <==> s.ending.None? && e != Completed
    ensures Enabled(env, s, ServerLose) <==> s.server.Writing?
  {
  }

  // ----- replies ------------------------------------------------------------------------------------

  /** {1, ..., n} */
  function Tids(n: nat): (s: set<int>)
    ensures forall t :: t in s <==> 1 <= t <= n
  {
    if n == 0 then {} else Tids(n - 1) + {n}
  }

  /** The replies to the commands run so far. */
  function Replies(env: Env, outcomes: seq<Outcome>): (s: seq<RemResMsg>)
    requires |outcomes| <= |env.requests|
    ensures |s| == |outcomes|
  {
    seq(|outcomes|, i requires 0 <= i < |outcomes| => ReplyTo(env.requests[i], outcomes[i]))
  }

  /** Those of them that are not lost. */
  function Kept(env: Env, outcomes: seq<Outcome>, lost: set<int>): (s: seq<RemResMsg>)
    requires |outcomes| <= |env.requests|
    ensures |s| <= |outcomes|
    decreases |outcomes|
  {
    if outcomes == [] then []
    else
      var n := |outcomes|;
      var earlier := Kept(env, outcomes[..n - 1], lost);
      if n in lost then earlier else earlier + [ReplyTo(env.requests[n - 1], outcomes[n - 1])]
  }

  lemma {:induction false} NoneLost(env: Env, outcomes: seq<Outcome>)
    requires |outcomes| <= |env.requests|
    ensures Kept(env, outcomes, {}) == Replies(env, outcomes)
    decreases |outcomes|
  {
    if outcomes == [] {
    } else {
      NoneLost(env, outcomes[..|outcomes| - 1]);
    }
  }

  /** Whether a later reply is lost makes no difference. */
  lemma {:induction false} LaterLoss(env: Env, outcomes: seq<Outcome>, lost: set<int>, t: int)
    requires |outcomes| < t && |outcomes| <= |env.requests|
    ensures Kept(env, outcomes, lost + {t}) == Kept(env, outcomes, lost)
    decreases |outcomes|
  {
    if outcomes == [] {
    } else {
      LaterLoss(env, outcomes[..|outcomes| - 1], lost, t);
    }
  }

  lemma KeptNext(env: Env, outcomes: seq<Outcome>, lost: set<int>, outcome: Outcome)
    requires |outcomes| < |env.requests| && |outcomes| + 1 !in lost
    ensures Kept(env, outcomes + [outcome], lost)
            == Kept(env, outcomes, lost) + [ReplyTo(env.requests[|outcomes|], outcome)]
  {
    assert (outcomes + [outcome])[..|outcomes|] == outcomes;
  }

  lemma KeptButLast(env: Env, outcomes: seq<Outcome>, lost: set<int>)
    requires |outcomes| <= |env.requests| && Kept(env, outcomes, lost) != [] && |outcomes| !in lost
    ensures var kept := Kept(env, outcomes, lost);
            Kept(env, outcomes, lost + {|outcomes|}) == kept[..|kept| - 1]
  {
    LaterLoss(env, outcomes[..|outcomes| - 1], lost, |outcomes|);
  }

  /** What the reader makes of the responses it has read. */
  function Recorded(env: Env, received: seq<RemResMsg>): map<int, Entry>
    decreases |received|
  {
    if received == [] then map[]
    else
      var res := received[|received| - 1];
      Recorded(env, received[..|received| - 1])[res.tid := EntryOf(env, res)]
  }

  lemma RecordedNext(env: Env, received: seq<RemResMsg>, res: RemResMsg)
    ensures Recorded(env, received + [res]) == Recorded(env, received)[res.tid := EntryOf(env, res)]
  {
    assert (received + [res])[..|received|] == received;
  }

  // ----- what every reachable state satisfies ------------------------------------------------------

  /** The responses on their way, oldest first. */
  function InFlight(s: State): seq<RemResMsg> {
    s.received + s.toClient + if s.server.Writing? then [s.server.res] else []
  }

  ghost predicate WriterInv(env: Env, s: State) {
    && s.sent <= s.pushed <= s.sent + 1
    && s.pushed <= |env.requests|
    && |s.toServer| <= s.pushed
    && s.toServer == env.requests[Taken(s)..s.pushed]
    && |s.toServer| <= env.requestCapacity
    && (env.deliverAfterReturn ==> Taken(s) <= s.sent)
    && (s.closed ==> s.sent == |env.requests|
                     || (env.client == WriteThenRead && s.server.Ended? && s.server.status != Ok))
  }

  ghost predicate ServerInv(env: Env, s: State) {
    var e := |s.executed|;
    && e <= FirstRefused(env.gate, env.requests)
    && s.executed == env.requests[..e]
    && (if s.server.Ended? && s.server.status != Ok
        then Taken(s) == e + 1 && e < |env.requests| && env.gate(env.requests[e]) == Some(s.server.status)
        else Taken(s) == e)
    && (s.server == Ended(Ok) ==> s.closed && e == |env.requests|)
  }

  ghost predicate ChannelInv(env: Env, s: State) {
    && |s.outcomes| == |s.executed| <= |env.requests|
    && s.lost <= Tids(|s.executed|)
    && (s.server.Writing? ==> s.server.res.tid == |s.executed| && |s.executed| !in s.lost)
    && InFlight(s) == Kept(env, s.outcomes, s.lost)
    && |s.toClient| <= env.responseCapacity
  }

  ghost predicate ReaderInv(env: Env, s: State) {
    && s.results == Recorded(env, s.received)
    && (env.client == WriteThenRead && !s.closed ==> s.received == [])
    && (s.ending == Some(Completed) ==> s.server == Ended(Ok) && s.toClient == [])
  }

  ghost predicate Inv(env: Env, s: State) {
    WriterInv(env, s) && ServerInv(env, s) && ChannelInv(env, s) && ReaderInv(env, s)
  }

  lemma PushKeepsWriterInv(env: Env, s: State)
    requires WriterInv(env, s) && Enabled(env, s, Push)
    ensures WriterInv(env, Apply(env, s, Push))
  {
    var k, n := Taken(s), s.pushed;
    assert env.requests[k..n + 1] == env.requests[k..n] + [env.requests[n]];
  }

  lemma TakeKeepsWriterInv(env: Env, s: State, outcome: Outcome)
    requires WriterInv(env, s) && Enabled(env, s, ServerTake(outcome))
    ensures WriterInv(env, Take(env, s, outcome))
  {
    var k, n := Taken(s), s.pushed;
    assert env.requests[k..n][1..] == env.requests[k + 1..n];
  }

  lemma WriterStep(env: Env, s: State, a: Action)
    requires WriterInv(env, s) && Enabled(env, s, a)
    ensures WriterInv(env, Apply(env, s, a))
  {
    match a
    case Push => PushKeepsWriterInv(env, s);
    case ServerTake(outcome) => TakeKeepsWriterInv(env, s, outcome);
    case _ =>
  }

  /** The server reads the requests in order. */
  lemma NextRequest(env: Env, s: State)
    requires WriterInv(env, s) && ServerInv(env, s) && s.server.Reading? && s.toServer != []
    ensures |s.executed| < |env.requests| && s.toServer[0] == env.requests[|s.executed|]
  {
  }

  lemma RefusalKeepsServerInv(env: Env, s: State, outcome: Outcome)
    requires WellFormed(env) && WriterInv(env, s) && ServerInv(env, s) && Enabled(env, s, ServerTake(outcome))
    requires env.gate(s.toServer[0]).Some?
    ensures ServerInv(env, Take(env, s, outcome))
  {
    NextRequest(env, s);
    var t := Take(env, s, outcome);
    assert t.executed == s.executed && Taken(t) == |t.executed| + 1;
  }

  lemma ExecutionKeepsServerInv(env: Env, s: State, outcome: Outcome)
    requires WriterInv(env, s) && ServerInv(env, s) && Enabled(env, s, ServerTake(outcome))
    requires env.gate(s.toServer[0]).None?
    ensures ServerInv(env, Take(env, s, outcome))
  {
    var e := |s.executed|;
    NextRequest(env, s);
    assert env.requests[..e + 1] == env.requests[..e] + [env.requests[e]];
  }

  lemma ServerStep(env: Env, s: State, a: Action)
    requires WellFormed(env) && WriterInv(env, s) && ServerInv(env, s) && Enabled(env, s, a)
    ensures ServerInv(env, Apply(env, s, a))
  {
    match a
    case ServerTake(outcome) =>
      if env.gate(s.toServer[0]).Some? {
        RefusalKeepsServerInv(env, s, outcome);
      } else {
        ExecutionKeepsServerInv(env, s, outcome);
      }
    case _ =>
  }

  lemma RefusalKeepsChannelInv(env: Env, s: State, outcome: Outcome)
    requires ChannelInv(env, s) && Enabled(env, s, ServerTake(outcome)) && env.gate(s.toServer[0]).Some?
    ensures ChannelInv(env, Take(env, s, outcome))
  {
    assert InFlight(Take(env, s, outcome)) == InFlight(s);
  }

  lemma ExecutionKeepsChannelInv(env: Env, s: State, outcome: Outcome)
    requires WellFormed(env) && ChannelInv(env, s) && Enabled(env, s, ServerTake(outcome))
    requires |s.executed| < |env.requests| && s.toServer[0] == env.requests[|s.executed|]
    requires env.gate(s.toServer[0]).None?
    ensures ChannelInv(env, Take(env, s, outcome))
  {
    var t := Take(env, s, outcome);
    KeptNext(env, s.outcomes, s.lost, outcome);
    assert InFlight(t) == InFlight(s) + [t.server.res];
  }

  lemma WriteKeepsChannelInv(env: Env, s: State)
    requires ChannelInv(env, s) && Enabled(env, s, ServerWrite)
    ensures ChannelInv(env, Apply(env, s, ServerWrite))
  {
    assert InFlight(Apply(env, s, ServerWrite)) == InFlight(s);
  }

  lemma ReaderTakeKeepsChannelInv(env: Env, s: State)
    requires ChannelInv(env, s) && Enabled(env, s, ReaderTake)
    ensures ChannelInv(env, Apply(env, s, ReaderTake))
  {
    assert InFlight(Apply(env, s, ReaderTake)) == InFlight(s);
  }

  lemma LoseKeepsChannelInv(env: Env, s: State)
    requires ChannelInv(env, s) && Enabled(env, s, ServerLose)
    ensures ChannelInv(env, Apply(env, s, ServerLose))
  {
    var t := Apply(env, s, ServerLose);
    assert InFlight(s) == InFlight(t) + [s.server.res];
    KeptButLast(env, s.outcomes, s.lost);
  }

  lemma ChannelStep(env: Env, s: State, a: Action)
    requires WellFormed(env) && WriterInv(env, s) && ServerInv(env, s) && ChannelInv(env, s) && Enabled(env, s, a)
    ensures ChannelInv(env, Apply(env, s, a))
  {
    match a
    case ServerTake(outcome) =>
      if env.gate(s.toServer[0]).Some? {
        RefusalKeepsChannelInv(env, s, outcome);
      } else {
        NextRequest(env, s);
        ExecutionKeepsChannelInv(env, s, outcome);
      }
    case ServerWrite => WriteKeepsChannelInv(env, s);
    case ServerLose => LoseKeepsChannelInv(env, s);
    case ReaderTake => ReaderTakeKeepsChannelInv(env, s);
    case _ =>
  }

  lemma ReaderStep(env: Env, s: State, a: Action)
    requires ReaderInv(env, s) && Enabled(env, s, a)
    ensures ReaderInv(env, Apply(env, s, a))
  {
    if a == ReaderTake {
      RecordedNext(env, s.received, s.toClient[0]);
    }
  }

  lemma StepInv(env: Env, s: State, a: Action)
    requires WellFormed(env) && Inv(env, s) && Enabled(env, s, a)
    ensures Inv(env, Apply(env, s, a))
  {
    WriterStep(env, s, a);
    ServerStep(env, s, a);
    ChannelStep(env, s, a);
    ReaderStep(env, s, a);
  }

  lemma StartInv(env: Env)
    requires WellFormed(env)
    ensures Inv(env, Start())
  {
  }

  lemma {:induction false} ReachedInv(env: Env, run: seq<Action>, s: State)
    requires WellFormed(env) && Reaches(env, run, s)
    ensures Inv(env, s)
    decreases |run|
  {
    if run == [] {
      StartInv(env);
    } else {
      var before := Last(env, run, s);
      ReachedInv(env, run[..|run| - 1], before);
      StepInv(env, before, run[|run| - 1]);
    }
  }

  // ----- correlation ------------------------------------------------------------------------------------

  ghost predicate Prefix<T>(a: seq<T>, b: seq<T>) {
    |a| <= |b| && a == b[..|a|]
  }

  /** results[t] is what the runner made of command t, together with the text of command t. */
  ghost predicate Correlates(env: Env, outcomes: seq<Outcome>, results: map<int, Entry>, t: int) {
    && 1 <= t <= |outcomes| <= |env.requests|
    && t in results
    && var o, req := outcomes[t - 1], env.requests[t - 1];
    results[t] == Entry(t, o.rc, Truncate(o.out), Truncate(o.err), req.hsh, req.cmd)
  }

  /** results has exactly the first n commands but those lost, each with its entry. */
  ghost predicate Holds(env: Env, outcomes: seq<Outcome>, lost: set<int>, results: map<int, Entry>, n: nat) {
    && n <= |outcomes| <= |env.requests|
    && results.Keys == Tids(n) - lost
    && forall t | t in results :: Correlates(env, outcomes, results, t)
  }

  lemma HoldsLonger(env: Env, outcomes: seq<Outcome>, lost: set<int>, results: map<int, Entry>, n: nat)
    requires 0 < |outcomes| <= |env.requests|
    requires Holds(env, outcomes[..|outcomes| - 1], lost, results, n)
    ensures Holds(env, outcomes, lost, results, n)
  {
    forall t | t in results
      ensures Correlates(env, outcomes, results, t)
    {
      assert Correlates(env, outcomes[..|outcomes| - 1], results, t);
    }
  }

  /** results[tid] = ... for the reply that comes next. */
  lemma HoldsNext(env: Env, outcomes: seq<Outcome>, lost: set<int>, results: map<int, Entry>, n: nat)
    requires WellFormed(env) && n < |outcomes| && n + 1 !in lost && Holds(env, outcomes, lost, results, n)
    ensures var res := ReplyTo(env.requests[n], outcomes[n]);
            && res.tid == n + 1 && res.tid !in results
            && Holds(env, outcomes, lost, results[res.tid := EntryOf(env, res)], n + 1)
  {
    var res := ReplyTo(env.requests[n], outcomes[n]);
    var after := results[res.tid := EntryOf(env, res)];
    assert Tids(n + 1) == Tids(n) + {n + 1};
    forall t | t in after
      ensures Correlates(env, outcomes, after, t)
    {
      if t in results {
        assert Correlates(env, outcomes, results, t);
      }
    }
  }

  lemma HoldsNextLost(env: Env, outcomes: seq<Outcome>, lost: set<int>, results: map<int, Entry>, n: nat)
    requires n < |outcomes| && n + 1 in lost && Holds(env, outcomes, lost, results, n)
    ensures Holds(env, outcomes, lost, results, n + 1)
  {
    assert Tids(n + 1) == Tids(n) + {n + 1};
  }

  lemma KeptCases(env: Env, outcomes: seq<Outcome>, lost: set<int>)
    requires 0 < |outcomes| <= |env.requests|
    ensures var n := |outcomes|;
            var shorter := Kept(env, outcomes[..n - 1], lost);
            Kept(env, outcomes, lost)
            == if n in lost then shorter else shorter + [ReplyTo(env.requests[n - 1], outcomes[n - 1])]
  {
  }

  lemma RecordsLast(env: Env, outcomes: seq<Outcome>, lost: set<int>)
    requires WellFormed(env) && 0 < |outcomes| <= |env.requests|
    requires var n := |outcomes| - 1;
             Holds(env, outcomes, lost, Recorded(env, Kept(env, outcomes[..n], lost)), n)
    ensures Holds(env, outcomes, lost, Recorded(env, Kept(env, outcomes, lost)), |outcomes|)
  {
    var n := |outcomes| - 1;
    var shorter := Kept(env, outcomes[..n], lost);
    var results := Recorded(env, shorter);
    KeptCases(env, outcomes, lost);
    if n + 1 in lost {
      HoldsNextLost(env, outcomes, lost, results, n);
    } else {
      HoldsNext(env, outcomes, lost, results, n);
      RecordedNext(env, shorter, ReplyTo(env.requests[n], outcomes[n]));
    }
  }

  /** Recording every reply that is not lost gives the entries of exactly these commands. */
  lemma {:induction false} RecordedOfAll(env: Env, outcomes: seq<Outcome>, lost: set<int>)
    requires WellFormed(env) && |outcomes| <= |env.requests|
    ensures Holds(env, outcomes, lost, Recorded(env, Kept(env, outcomes, lost)), |outcomes|)
    decreases |outcomes|
  {
    if outcomes == [] {
      assert Tids(0) - lost == {};
    } else {
      var n := |outcomes| - 1;
      RecordedOfAll(env, outcomes[..n], lost);
      HoldsLonger(env, outcomes, lost, Recorded(env, Kept(env, outcomes[..n], lost)), n);
      RecordsLast(env, outcomes, lost);
    }
  }

  /** Recording the first m of them gives those of the first n commands, for some n. */
  lemma {:induction false} RecordedOfSome(env: Env, outcomes: seq<Outcome>, lost: set<int>, m: nat) returns (n: nat)
    requires WellFormed(env) && |outcomes| <= |env.requests| && m <= |Kept(env, outcomes, lost)|
    ensures Holds(env, outcomes, lost, Recorded(env, Kept(env, outcomes, lost)[..m]), n)
    ensures m == |Kept(env, outcomes, lost)| ==> n == |outcomes|
    ensures lost == {} ==> n == m
    decreases |outcomes|
  {
    var kept := Kept(env, outcomes, lost);
    if m == |kept| {
      n := |outcomes|;
      assert kept[..m] == kept;
      RecordedOfAll(env, outcomes, lost);
      NoneLost(env, outcomes);
    } else {
      var outcomes' := outcomes[..|outcomes| - 1];
      KeptCases(env, outcomes, lost);
      assert kept[..m] == Kept(env, outcomes', lost)[..m];
      n := RecordedOfSome(env, outcomes', lost, m);
      HoldsLonger(env, outcomes, lost, Recorded(env, kept[..m]), n);
    }
  }

  lemma ReceivedAreRecorded(env: Env, s: State) returns (n: nat)
    requires WellFormed(env) && ChannelInv(env, s) && ReaderInv(env, s)
    ensures Prefix(s.received, Kept(env, s.outcomes, s.lost))
    ensures Holds(env, s.outcomes, s.lost, s.results, n)
    ensures |s.received| == |Kept(env, s.outcomes, s.lost)| ==> n == |s.outcomes|
    ensures s.lost == {} ==> n == |s.received|
  {
    var m := |s.received|;
    assert s.received == InFlight(s)[..m] == Kept(env, s.outcomes, s.lost)[..m];
    n := RecordedOfSome(env, s.outcomes, s.lost, m);
  }

  /** In every interleaving, with any losses and faults: the commands run are the first of those sent,
      each once and in order; the responses read are the first of their replies that were not lost;
      results has exactly the first n commands but the lost ones, and results[t] is what the runner
      made of command t, together with its text. */
  lemma Correlated(env: Env, run: seq<Action>, s: State)
    requires WellFormed(env) && Reaches(env, run, s)
    ensures var e := |s.executed|;
            && e == |s.outcomes| <= s.pushed <= |env.requests|
            && s.executed == env.requests[..e]
            && Prefix(s.received, Kept(env, s.outcomes, s.lost))
            && (exists n: nat :: n <= e && s.results.Keys == Tids(n) - s.lost)
            && forall t | t in s.results :: Correlates(env, s.outcomes, s.results, t)
  {
    ReachedInv(env, run, s);
    var n := ReceivedAreRecorded(env, s);
    assert s.results.Keys == Tids(n) - s.lost;
  }

  /** Where no reply is lost, the reader has exactly the first replies, one for each response. */
  lemma CorrelatedWithoutLoss(env: Env, run: seq<Action>, s: State)
    requires WellFormed(env) && Reaches(env, run, s) && s.lost == {}
    ensures |s.outcomes| <= |env.requests| && Prefix(s.received, Replies(env, s.outcomes))
    ensures s.results.Keys == Tids(|s.received|)
  {
    ReachedInv(env, run, s);
    NoneLost(env, s.outcomes);
    var n := ReceivedAreRecorded(env, s);
    assert Tids(n) - {} == Tids(n);
  }

  // ----- termination ------------------------------------------------------------------------------------

  /** The steps still possible: five for a message not yet handed over, fewer the further it is. */
  function Remaining(env: Env, s: State): int {
    5 * (|env.requests| - s.pushed) + (s.pushed - s.sent) + 3 * |s.toServer|
    + (if s.server.Writing? then 2 else 0) + |s.toClient|
    + (if s.closed then 0 else 1) + (if s.server.Ended? then 0 else 1) + (if s.ending.Some? then 0 else 1)
  }

  lemma RemainingNonNegative(env: Env, s: State)
    requires WriterInv(env, s)
    ensures Remaining(env, s) >= 0
  {
  }

  lemma StepDecreases(env: Env, s: State, a: Action)
    requires WriterInv(env, s) && Enabled(env, s, a)
    ensures Remaining(env, Apply(env, s, a)) < Remaining(env, s)
  {
  }

  /** No run of a stream of N commands is longer than 5 N + 3 steps. */
  lemma {:induction false} RunBounded(env: Env, run: seq<Action>, s: State)
    requires WellFormed(env) && Reaches(env, run, s)
    ensures |run| + Remaining(env, s) <= 5 * |env.requests| + 3
    decreases |run|
  {
    if run == [] {
    } else {
      var n := |run| - 1;
      var before := Last(env, run, s);
      ReachedInv(env, run[..n], before);
      StepDecreases(env, before, run[n]);
      RunBounded(env, run[..n], before);
    }
  }

  // ----- progress of the concurrent client ---------------------------------------------------------------

  /** With a writer and a reader that run concurrently, whatever the capacities, some party can
      always move until the stream has ended for the client. */
  lemma ConcurrentMove(env: Env, s: State, outcome: Outcome) returns (a: Action)
    requires WellFormed(env) && env.client == Concurrent && Inv(env, s) && s.ending.None?
    ensures Enabled(env, s, a) && !IsFault(a)
    ensures a.ServerTake? ==> a.outcome == outcome
  {
    if s.toClient != [] {
      a := ReaderTake;
    } else if s.server.Ended? {
      a := ReaderEnd;
    } else if s.server.Writing? {
      a := ServerWrite;
    } else if s.sent < s.pushed {
      a := Return;
    } else if s.toServer != [] {
      a := ServerTake(outcome);
    } else if s.closed {
      a := ServerEof;
    } else if s.pushed < |env.requests| {
      a := Push;
    } else {
      a := Close;
    }
  }

  /** The concurrent client is free of deadlock for every number of commands and all capacities. */
  lemma ConcurrentStuckFree(env: Env, run: seq<Action>, s: State)
    requires WellFormed(env) && env.client == Concurrent && Reaches(env, run, s)
    ensures !Stuck(env, s)
    ensures |run| <= 5 * |env.requests| + 3
  {
    ReachedInv(env, run, s);
    RunBounded(env, run, s);
    RemainingNonNegative(env, s);
    if s.ending.None? {
      var a := ConcurrentMove(env, s, Outcome(0, [], []));
      assert Enabled(env, s, a) && !IsFault(a);
    }
  }

  // ----- the client that writes everything first -------------------------------------------------------------

  /** Everything fits between the parties, or the server refuses a command before its replies
      fill the response channel. */
  ghost predicate Fits(env: Env) {
    var n, k := |env.requests|, FirstRefused(env.gate, env.requests);
    n <= env.requestCapacity + env.responseCapacity + 1 || (k < n && k <= env.responseCapacity)
  }

  lemma MoveAfterClose(env: Env, s: State, outcome: Outcome) returns (a: Action)
    requires WellFormed(env) && Inv(env, s) && s.closed && s.ending.None?
    ensures Enabled(env, s, a) && !IsFault(a)
  {
    if s.toClient != [] {
      a := ReaderTake;
    } else if s.server.Ended? {
      a := ReaderEnd;
    } else if s.server.Writing? {
      a := ServerWrite;
    } else if s.sent < s.pushed {
      a := Return;
    } else if s.toServer != [] {
      a := ServerTake(outcome);
    } else {
      a := ServerEof;
    }
  }

  lemma WriteThenReadMove(env: Env, s: State, outcome: Outcome) returns (a: Action)
    requires WellFormed(env) && env.client == WriteThenRead && Fits(env)
    requires Inv(env, s) && s.ending.None?
    ensures Enabled(env, s, a) && !IsFault(a)
  {
    if s.closed {
      a := MoveAfterClose(env, s, outcome);
    } else if s.server.Ended? {
      a := WriteFails;
    } else if s.sent < s.pushed {
      a := Return;
    } else if s.sent == |env.requests| {
      a := Close;
    } else if |s.toServer| < env.requestCapacity {
      a := Push;
    } else if s.server.Reading? {
      a := ServerTake(outcome);
    } else {
      assert |s.toClient| + 1 == |InFlight(s)| <= |s.executed|;
      a := ServerWrite;
    }
  }

  /** The client is still writing, the server still serving, and no reply is lost. */
  ghost predicate MidStream(s: State) {
    s.ending.None? && !s.closed && !s.server.Ended? && s.lost == {}
  }

  /** Where things do not fit, a client that reads nothing before it has written everything
      never gets to read. */
  lemma StaysMidStream(env: Env, s: State, a: Action)
    requires WellFormed(env) && env.client == WriteThenRead && !Fits(env)
    requires Inv(env, s) && MidStream(s) && Enabled(env, s, a) && !IsFault(a)
    ensures MidStream(Apply(env, s, a))
  {
    NoneLost(env, s.outcomes);
    assert |InFlight(s)| == |s.executed|;
    if a.ServerTake? {
      NextRequest(env, s);
    }
  }

  lemma {:induction false} NeverGetsToRead(env: Env, run: seq<Action>, s: State)
    requires WellFormed(env) && env.client == WriteThenRead && !Fits(env)
    requires Reaches(env, run, s) && FaultFree(run)
    ensures MidStream(s)
    decreases |run|
  {
    if run == [] {
    } else {
      var n := |run| - 1;
      var before := Last(env, run, s);
      assert !IsFault(run[n]);
      NeverGetsToRead(env, run[..n], before);
      ReachedInv(env, run[..n], before);
      StaysMidStream(env, before, run[n]);
    }
  }

  /** A run without faults can be continued until nothing can happen. */
  lemma {:induction false} RunsUntilQuiet(env: Env, run: seq<Action>, s: State) returns (run': seq<Action>, s': State)
    requires WellFormed(env) && Reaches(env, run, s) && FaultFree(run)
    ensures Reaches(env, run', s') && FaultFree(run') && Quiet(env, s')
    decreases Remaining(env, s) + 1
  {
    ReachedInv(env, run, s);
    RemainingNonNegative(env, s);
    if Quiet(env, s) {
      run', s' := run, s;
    } else {
      var a: Action :| Enabled(env, s, a) && !IsFault(a);
      Extend(env, run, s, a);
      StepDecreases(env, s, a);
      run', s' := RunsUntilQuiet(env, run + [a], Apply(env, s, a));
    }
  }

  lemma FittingNotStuck(env: Env, run: seq<Action>, s: State)
    requires WellFormed(env) && env.client == WriteThenRead && Fits(env) && Reaches(env, run, s)
    ensures !Stuck(env, s)
  {
    ReachedInv(env, run, s);
    if s.ending.None? {
      var a := WriteThenReadMove(env, s, Outcome(0, [], []));
      assert Enabled(env, s, a) && !IsFault(a);
    }
  }

  /** The client that writes everything before it reads is free of deadlock exactly when its
      commands fit: all of them, or those before an early enough refusal. */
  lemma WriteThenReadStuckFreeIffFits(env: Env)
    requires WellFormed(env) && env.client == WriteThenRead
    ensures Fits(env) <==> forall run, s :: Reaches(env, run, s) ==> !Stuck(env, s)
  {
    if Fits(env) {
      forall run, s | Reaches(env, run, s)
        ensures !Stuck(env, s)
      {
        FittingNotStuck(env, run, s);
      }
    } else {
      var run, s := RunsUntilQuiet(env, [], Start());
      NeverGetsToRead(env, run, s);
      assert Stuck(env, s);
    }
  }

  /** Where they do not fit, it is not a matter of scheduling: no run without faults ever ends.
      Where they fit, one that is continued until nothing can happen has ended. */
  lemma WriteThenReadEndsIffFits(env: Env)
    requires WellFormed(env) && env.client == WriteThenRead
    ensures Fits(env) <==> exists run, s :: Reaches(env, run, s) && FaultFree(run) && s.ending.Some?
    ensures Fits(env) ==> forall run, s :: Reaches(env, run, s) && Quiet(env, s) ==> s.ending.Some?
  {
    forall run, s | Reaches(env, run, s) && FaultFree(run) && s.ending.Some?
      ensures Fits(env)
    {
      if !Fits(env) {
        NeverGetsToRead(env, run, s);
      }
    }
    if Fits(env) {
      forall run, s | Reaches(env, run, s) && Quiet(env, s)
        ensures s.ending.Some?
      {
        FittingNotStuck(env, run, s);
      }
      var run, s := RunsUntilQuiet(env, [], Start());
      FittingNotStuck(env, run, s);
    }
  }

  // ----- how a stream without faults ends ---------------------------------------------------------------------

  /** Without faults no reply is lost and the client sees the status the server ended with. */
  ghost predicate EndsAsServed(s: State) {
    && s.lost == {}
    && (s.ending.Some? ==>
          && s.server.Ended?
          && s.ending.value == if s.server.status == Ok then Completed else GrpcError(CodeOf(s.server.status)))
  }

  lemma {:induction false} RunEndsAsServed(env: Env, run: seq<Action>, s: State)
    requires Reaches(env, run, s) && FaultFree(run)
    ensures EndsAsServed(s)
    decreases |run|
  {
    if run == [] {
    } else {
      var n := |run| - 1;
      var before := Last(env, run, s);
      assert !IsFault(run[n]);
      RunEndsAsServed(env, run[..n], before);
    }
  }

  /** Everything a completed stream has done; the lost replies are all that is missing. */
  lemma CompletedStream(env: Env, s: State)
    requires WellFormed(env) && Inv(env, s) && s.ending == Some(Completed)
    ensures s.executed == env.requests && FirstRefused(env.gate, env.requests) == |env.requests| == |s.outcomes|
    ensures s.received == Kept(env, s.outcomes, s.lost)
    ensures s.results.Keys == Tids(|env.requests|) - s.lost
    ensures forall t | t in s.results :: Correlates(env, s.outcomes, s.results, t)
  {
    assert s.received == InFlight(s);
    assert env.requests[..|env.requests|] == env.requests;
    var n := ReceivedAreRecorded(env, s);
  }

  /** A stream without faults that has ended has completed exactly when no command is refused;
      then every command ran and every reply was read.  Otherwise it fails with the status of
      the first refused command, after exactly the commands before it ran. */
  lemma FaultFreeEnding(env: Env, run: seq<Action>, s: State)
    requires WellFormed(env) && FaultFree(run) && Reaches(env, run, s) && s.ending.Some?
    ensures var n, k := |env.requests|, FirstRefused(env.gate, env.requests);
            && |s.executed| == |s.outcomes| == k && s.lost == {}
            && (s.ending == Some(Completed) <==> k == n)
            && (k == n ==> s.received == Replies(env, s.outcomes))
            && (k < n ==> s.ending == Some(GrpcError(if env.gate(env.requests[k]).value == HashMismatch
                                                     then INVALID_ARGUMENT else PERMISSION_DENIED)))
  {
    ReachedInv(env, run, s);
    RunEndsAsServed(env, run, s);
    if s.server.status == Ok {
      CompletedStream(env, s);
      NoneLost(env, s.outcomes);
    }
  }
}
