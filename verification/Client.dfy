/**
 The messages the two clients send (prv/remsvc_provider/triggers/remsvc.py, _write;
 src/client/RemSvcClient.cc, doRemCmdStrm), and what the protocol theorems say about a server
 with a given policy.
 */
module Client {
  import opened Common
  import opened Hash
  import opened Service
  import opened Stream
  import opened Trigger

  datatype Command = Command(cmd: Bytes, cmdtyp: int, cmdusr: Bytes, src: Bytes)

  /** Command number tid as it is sent: hashed, and numbered from one. */
  function Message(c: Command, tid: int): RemCmdMsg {
    RemCmdMsg(c.cmd, c.cmdtyp, c.cmdusr, tid, c.src, HashText(c.cmd))
  }

  function Messages(commands: seq<Command>): (s: seq<RemCmdMsg>)
    ensures |s| == |commands|
    ensures forall i :: 0 <= i < |s| ==> s[i] == Message(commands[i], i + 1)
  {
    seq(|commands|, i requires 0 <= i < |commands| => Message(commands[i], i + 1))
  }

  /** A message as it has to arrive: what the command says, its number, and its checksum in print. */
  ghost predicate Carries(req: RemCmdMsg, cmd: Bytes, cmdtyp: int, cmdusr: Bytes, src: Bytes, tid: int) {
    && req.cmd == cmd && req.cmdtyp == cmdtyp && req.cmdusr == cmdusr && req.src == src
    && req.tid == tid && PrintsCrc(cmd, req.hsh)
  }

  lemma MessagesCarry(commands: seq<Command>, i: nat)
    requires i < |commands|
    ensures var c := commands[i];
            Carries(Messages(commands)[i], c.cmd, c.cmdtyp, c.cmdusr, c.src, i + 1)
  {
    HashTextPrintsCrc(commands[i].cmd);
  }

  // ----- the provider against a server with a policy ---------------------------------------------

  lemma MessageRefusedByPolicyOnly(p: Policy, c: Command, tid: int)
    ensures GateOf(p)(Message(c, tid)).None? <==> Permits(p, c.cmd)
    ensures GateOf(p)(Message(c, tid)) != Some(Ok) && GateOf(p)(Message(c, tid)) != Some(HashMismatch)
  {
    UnalteredPasses(p, Message(c, tid));
  }

  /** The client's messages to a server with policy p. */
  lemma ProviderWellFormed(p: Policy, env: Env, commands: seq<Command>)
    requires env.requestCapacity >= 1 && env.responseCapacity >= 1
    requires env.gate == GateOf(p) && env.requests == Messages(commands)
    ensures WellFormed(env)
  {
    forall i | 0 <= i < |commands|
      ensures env.requests[i].tid == i + 1 && env.gate(env.requests[i]) != Some(Ok)
    {
      MessageRefusedByPolicyOnly(p, commands[i], i + 1);
    }
  }

  /** The outcomes of a stream are those of a server on which nothing but log was run before it, and
      nothing else meanwhile. */
  ghost predicate Follows(env: Env, world: World, log: seq<Invocation>, outcomes: seq<Outcome>) {
    && |outcomes| <= |env.requests|
    && forall i | 0 <= i < |outcomes| ::
         outcomes[i] == world(log + Invocations(env.requests[..i]), InvocationOf(env.requests[i]))
  }

  /** The policy permits every command and the runner returns zero for each. */
  ghost predicate PermittedAndZero(p: Policy, world: World, log: seq<Invocation>, commands: seq<Command>) {
    var reqs := Messages(commands);
    forall i | 0 <= i < |commands| ::
      Permits(p, commands[i].cmd) && world(log + Invocations(reqs[..i]), InvocationOf(reqs[i])).rc == 0
  }

  lemma AllSucceedIsPermittedAndZero(p: Policy, env: Env, world: World, log: seq<Invocation>,
                                     commands: seq<Command>, s: State)
    requires env.gate == GateOf(p) && env.requests == Messages(commands)
    requires Follows(env, world, log, s.outcomes)
    requires |s.outcomes| == FirstRefused(env.gate, env.requests)
    ensures AllSucceed(env, s) <==> PermittedAndZero(p, world, log, commands)
  {
    forall i | 0 <= i < |commands|
      ensures env.gate(env.requests[i]).None? <==> Permits(p, commands[i].cmd)
    {
      MessageRefusedByPolicyOnly(p, commands[i], i + 1);
    }
    var k := FirstRefused(env.gate, env.requests);
    if k < |env.requests| {
      assert !Permits(p, commands[k].cmd);
    } else if AllZero(s.outcomes) {
      assert forall i | 0 <= i < |commands| :: s.outcomes[i].rc == 0;
    }
  }

  /** Between this client and this server, over a stream without faults and in every interleaving,
      the event is SUCCESS exactly when every command is permitted and returns zero. */
  lemma ProviderSucceedsIff(p: Policy, env: Env, world: World, log: seq<Invocation>, commands: seq<Command>,
                            run: seq<Action>, s: State)
    requires env.requestCapacity >= 1 && env.responseCapacity >= 1
    requires env.gate == GateOf(p) && env.requests == Messages(commands)
    requires FaultFree(run) && Reaches(env, run, s) && s.ending.Some? && Follows(env, world, log, s.outcomes)
    ensures var e := EventFor(|commands|, s.ending.value, s.sent, s.results, 1, MAX_ATTEMPTS);
            e.state == SUCCESS <==> PermittedAndZero(p, world, log, commands)
  {
    ProviderWellFormed(p, env, commands);
    SuccessIffAllSucceed(env, run, s, 1, MAX_ATTEMPTS);
    FaultFreeEnding(env, run, s);
    AllSucceedIsPermittedAndZero(p, env, world, log, commands, s);
  }

  /** The machine's server is processStream: a stream without faults that has ended for the client
      left the runner with the calls, and the reader with the replies, of ServeAll. */
  lemma MachineServesLikeProcessStream(env: Env, world: World, log: seq<Invocation>, run: seq<Action>, s: State)
    requires WellFormed(env) && FaultFree(run) && Reaches(env, run, s) && s.ending.Some?
    requires Follows(env, world, log, s.outcomes)
    ensures var served := ServeAll(env.gate, world, log, env.requests);
            && log + Invocations(s.executed) == served.log
            && |s.executed| == served.executed
            && (s.ending == Some(Completed) <==> served.status == Ok)
            && (s.ending == Some(Completed) ==> s.received == served.replies)
  {
    FaultFreeEnding(env, run, s);
    Correlated(env, run, s);
    ServeAllClosedForm(env.gate, world, log, env.requests);
    if s.ending == Some(Completed) {
      assert s.received == ServeAll(env.gate, world, log, env.requests).replies;
    }
  }

  // ----- every server is a run ---------------------------------------------------------------------------

  /** What the runner makes of the next request, on a server on which nothing but log was run before the stream. */
  function NextOutcome(env: Env, world: World, log: seq<Invocation>, n: nat): Outcome {
    if n < |env.requests| then world(log + Invocations(env.requests[..n]), InvocationOf(env.requests[n]))
    else Outcome(0, [], [])
  }

  lemma FollowsNext(env: Env, world: World, log: seq<Invocation>, s: State, a: Action)
    requires WellFormed(env) && Inv(env, s) && Enabled(env, s, a) && Follows(env, world, log, s.outcomes)
    requires a.ServerTake? ==> a.outcome == NextOutcome(env, world, log, |s.outcomes|)
    ensures Follows(env, world, log, Apply(env, s, a).outcomes)
  {
    if a.ServerTake? {
      NextRequest(env, s);
    }
  }

  lemma {:induction false} FollowToTheEnd(env: Env, world: World, log: seq<Invocation>, run: seq<Action>, s: State)
    returns (run': seq<Action>, s': State)
    requires WellFormed(env) && env.client == Concurrent
    requires Reaches(env, run, s) && FaultFree(run) && Follows(env, world, log, s.outcomes)
    ensures Reaches(env, run', s') && FaultFree(run') && Follows(env, world, log, s'.outcomes)
    ensures s'.ending.Some?
    decreases Remaining(env, s) + 1
  {
    ReachedInv(env, run, s);
    RemainingNonNegative(env, s);
    if s.ending.Some? {
      run', s' := run, s;
    } else {
      var a := ConcurrentMove(env, s, NextOutcome(env, world, log, |s.outcomes|));
      FollowsNext(env, world, log, s, a);
      Extend(env, run, s, a);
      StepDecreases(env, s, a);
      run', s' := FollowToTheEnd(env, world, log, run + [a], Apply(env, s, a));
    }
  }

  /** Conversely, whatever the server does in processStream is done in some run without faults: the two
      make the same calls, and where every request is admitted the client reads the same replies. */
  lemma ProcessStreamIsARun(env: Env, world: World, log: seq<Invocation>) returns (run: seq<Action>, s: State)
    requires WellFormed(env) && env.client == Concurrent
    ensures Reaches(env, run, s) && FaultFree(run) && s.ending.Some?
    ensures var served := ServeAll(env.gate, world, log, env.requests);
            && log + Invocations(s.executed) == served.log
            && (s.ending == Some(Completed) <==> served.status == Ok)
            && (served.status == Ok ==> s.received == served.replies)
  {
    run, s := FollowToTheEnd(env, world, log, [], Start());
    MachineServesLikeProcessStream(env, world, log, run, s);
  }

  // ----- the C++ client ---------------------------------------------------------------------------------

  /** ICmdStrmClient: Write may fail at any point; Read yields what the server answers; Finish its status. */
  class CmdStrmClient {
    const accepts: nat -> bool
    const status: Status
    var written: seq<RemCmdMsg>
    var writesDone: bool
    var inbox: seq<RemResMsg>

    constructor (accepts: nat -> bool, answers: seq<RemResMsg>, status: Status)
      ensures this.accepts == accepts && this.status == status
      ensures written == [] && !writesDone && inbox == answers
    {
      this.accepts := accepts;
      this.status := status;
      written, writesDone, inbox := [], false, answers;
    }

    method Write(req: RemCmdMsg) returns (ok: bool)
      requires !writesDone
      modifies this`written
      ensures written == old(written) + [req] && ok == accepts(|old(written)|)
    {
      ok := accepts(|written|);
      written := written + [req];
    }

    method WritesDone()
      modifies this`writesDone
      ensures writesDone
    {
      writesDone := true;
    }

    method Read() returns (res: Option<RemResMsg>)
      requires writesDone
      modifies this`inbox
      ensures old(inbox) == [] ==> res == None && inbox == []
      ensures old(inbox) != [] ==> res == Some(old(inbox)[0]) && inbox == old(inbox)[1..]
    {
      if inbox == [] {
        res := None;
      } else {
        res := Some(inbox[0]);
        inbox := inbox[1..];
      }
    }
  }

  /** The loop that reads and logs every answer. */
  method ReadAll(stream: CmdStrmClient)
    requires stream.writesDone
    modifies stream`inbox
    ensures stream.inbox == []
  {
    var done := false;
    while !done
      invariant done ==> stream.inbox == []
      decreases !done, |stream.inbox|
    {
      var res := stream.Read();
      done := res.None?;
    }
  }

  function CommandLine(cmds: seq<Bytes>, cmdtyp: int, cmdusr: Bytes): (s: seq<Command>)
    ensures |s| == |cmds| && forall i :: 0 <= i < |s| ==> s[i] == Command(cmds[i], cmdtyp, cmdusr, [])
  {
    seq(|cmds|, i requires 0 <= i < |cmds| => Command(cmds[i], cmdtyp, cmdusr, []))
  }

  lemma NextPrefix<T>(all: seq<T>, n: nat)
    requires n < |all|
    ensures all[..n] + [all[n]] == all[..n + 1]
  {
  }

  /** Hashes and writes command number tid. */
  method WriteOne(cmd: Bytes, cmdtyp: int, cmdusr: Bytes, tid: int, stream: CmdStrmClient) returns (ok: bool)
    requires !stream.writesDone
    modifies stream`written
    ensures stream.written == old(stream.written) + [Message(Command(cmd, cmdtyp, cmdusr, []), tid)]
    ensures ok == stream.accepts(|old(stream.written)|)
  {
    var hsh := Crc32Hex(cmd);
    ok := stream.Write(RemCmdMsg(cmd, cmdtyp, cmdusr, tid, [], hsh));
  }

  /** The loop that writes the commands: a prefix of the numbered and hashed commands, cut short only by
      the first failed write. */
  method WriteAll(cmds: seq<Bytes>, cmdtyp: int, cmdusr: Bytes, stream: CmdStrmClient)
    requires stream.written == [] && !stream.writesDone
    modifies stream`written
    ensures var k := |stream.written|;
            && k <= |cmds|
            && stream.written == Messages(CommandLine(cmds, cmdtyp, cmdusr))[..k]
            && (forall i: nat | i < k - 1 :: stream.accepts(i))
            && (k < |cmds| ==> k > 0 && !stream.accepts(k - 1))
  {
    ghost var all := Messages(CommandLine(cmds, cmdtyp, cmdusr));
    var tid := 0;
    while tid < |cmds|
      invariant 0 <= tid <= |cmds|
      invariant stream.written == all[..tid] && !stream.writesDone
      invariant forall i: nat | i < tid :: stream.accepts(i)
    {
      NextPrefix(all, tid);
      tid := tid + 1;
      var ok := WriteOne(cmds[tid - 1], cmdtyp, cmdusr, tid, stream);
      if !ok {
        break;
      }
    }
  }

  /** doRemCmdStrm on a new stream: it writes the commands, then reads every answer; the result is zero
      exactly for status OK. */
  method DoRemCmdStrm(cmds: seq<Bytes>, cmdtyp: int, cmdusr: Bytes, stream: CmdStrmClient) returns (rc: int)
    requires stream.written == [] && !stream.writesDone
    modifies stream
    ensures var k := |stream.written|;
            && k <= |cmds|
            && (forall i: nat | i < k :: Carries(stream.written[i], cmds[i], cmdtyp, cmdusr, [], i + 1))
            && stream.written == Messages(CommandLine(cmds, cmdtyp, cmdusr))[..k]
            && (forall i: nat | i < k - 1 :: stream.accepts(i))
            && (k < |cmds| ==> k > 0 && !stream.accepts(k - 1))
    ensures stream.writesDone && stream.inbox == []
    ensures rc == if stream.status == Ok then 0 else 1
  {
    WriteAll(cmds, cmdtyp, cmdusr, stream);
    forall i: nat | i < |stream.written|
      ensures Carries(stream.written[i], cmds[i], cmdtyp, cmdusr, [], i + 1)
    {
      MessagesCarry(CommandLine(cmds, cmdtyp, cmdusr), i);
    }
    stream.WritesDone();
    ReadAll(stream);
    rc := if stream.status == Ok then 0 else 1;
  }
}
