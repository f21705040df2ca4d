/**
 src/server/RemSvcServiceImpl.cc: the command policy, the unary call RemCmd and the
 sequential stream loop processStream.
 */
module Service {
  import opened Common
  import opened Gf2
  import opened Crc
  import opened Hash

  // ----- messages ----------------------------------------------------------------------

  datatype RemCmdMsg = RemCmdMsg(cmd: Bytes, cmdtyp: int, cmdusr: Bytes, tid: int, src: Bytes, hsh: string)

  datatype RemResMsg = RemResMsg(rc: int, tid: int, out: Bytes, err: Bytes, hsh: string)

  /** checkAllowed's answer when it is not the empty string. */
  datatype Denial = BadConfiguration | OnDenylist(cmd: Bytes) | NotOnAllowlist(cmd: Bytes)

  datatype Status = Ok | PermissionDenied(why: Denial) | HashMismatch

  // ----- the command policy ------------------------------------------------------------

  /** std::regex: which patterns compile, and which commands a pattern finds a match in. */
  datatype Regex = Regex(valid: Bytes -> bool, search: (Bytes, Bytes) -> bool)

  /** The pattern lists as configured. */
  datatype Policy = Policy(rx: Regex, allow: seq<Bytes>, deny: seq<Bytes>)

  ghost predicate AllValid(rx: Regex, patterns: seq<Bytes>) {
    forall i | 0 <= i < |patterns| :: rx.valid(patterns[i])
  }

  ghost predicate SomeMatch(rx: Regex, patterns: seq<Bytes>, cmd: Bytes) {
    exists i :: 0 <= i < |patterns| && rx.search(patterns[i], cmd)
  }

  /** What the configuration means: every pattern valid, no deny pattern matches, and the
      allowlist is empty or some allow pattern matches. */
  ghost predicate Permits(p: Policy, cmd: Bytes) {
    && AllValid(p.rx, p.allow)
    && AllValid(p.rx, p.deny)
    && !SomeMatch(p.rx, p.deny, cmd)
    && (p.allow == [] || SomeMatch(p.rx, p.allow, cmd))
  }

  ghost function Verdict(p: Policy, cmd: Bytes): (d: Option<Denial>)
    ensures d.None? <==> Permits(p, cmd)
  {
    if !AllValid(p.rx, p.allow) || !AllValid(p.rx, p.deny) then Some(BadConfiguration)
    else if SomeMatch(p.rx, p.deny, cmd) then Some(OnDenylist(cmd))
    else if p.allow == [] || SomeMatch(p.rx, p.allow, cmd) then None
    else Some(NotOnAllowlist(cmd))
  }

  ghost predicate Includes(some: seq<Bytes>, all: seq<Bytes>) {
    forall i | 0 <= i < |some| :: some[i] in all
  }

  /** More deny patterns, valid or not, anywhere in the list, never permit more. */
  lemma DenyMonotone(p: Policy, deny: seq<Bytes>, cmd: Bytes)
    requires Includes(p.deny, deny)
    requires Permits(p.(deny := deny), cmd)
    ensures Permits(p, cmd)
  {
    forall i | 0 <= i < |p.deny|
      ensures p.rx.valid(p.deny[i]) && !p.rx.search(p.deny[i], cmd)
    {
      var j :| 0 <= j < |deny| && deny[j] == p.deny[i];
      assert p.rx.valid(deny[j]) && !p.rx.search(deny[j], cmd);
    }
  }

  /** More valid allow patterns in a list that was not empty never permit less. */
  lemma AllowMonotone(p: Policy, allow: seq<Bytes>, cmd: Bytes)
    requires p.allow != [] && Includes(p.allow, allow) && AllValid(p.rx, allow)
    requires Permits(p, cmd)
    ensures Permits(p.(allow := allow), cmd)
  {
    var i :| 0 <= i < |p.allow| && p.rx.search(p.allow[i], cmd);
    var j :| 0 <= j < |allow| && allow[j] == p.allow[i];
    assert p.rx.search(allow[j], cmd);
  }

  // ----- the command runner ---------------------------------------------------------------

  datatype Invocation = Invocation(cmd: Bytes, cmdtyp: int, cmdusr: Bytes)

  datatype Outcome = Outcome(rc: int, out: Bytes, err: Bytes)

  /** What running a command yields, given everything that was run before it. */
  type World = (seq<Invocation>, Invocation) -> Outcome

  class Runner {
    const world: World
    var log: seq<Invocation>

    constructor (world: World)
      ensures this.world == world && log == []
    {
      this.world := world;
      log := [];
    }

    method Run(i: Invocation) returns (o: Outcome)
      modifies this
      ensures o == world(old(log), i)
      ensures log == old(log) + [i]
    {
      o := world(log, i);
      log := log + [i];
    }
  }

  // ----- replies ------------------------------------------------------------------------------

  const MAX_OUTPUT_BYTES: nat := 256 * 1024

  function Ascii(s: string): (b: Bytes)
    ensures |b| == |s|
  {
    seq(|s|, i requires 0 <= i < |s| => (s[i] as int % 256) as bv8)
  }

  const TRUNCATION_MARKER := "\n\U{0001}[remSvc: output truncated at 262144 bytes]\U{0001}\n"

  function Truncate(s: Bytes): Bytes {
    if |s| > MAX_OUTPUT_BYTES then s[..MAX_OUTPUT_BYTES] + Ascii(TRUNCATION_MARKER) else s
  }

  /** What is sent of an output: all of it, or its first 256 KiB and the marker. */
  ghost predicate Shortened(full: Bytes, sent: Bytes) {
    if |full| <= 262144 then sent == full
    else
      && |sent| == 262144 + |TRUNCATION_MARKER|
      && sent[..262144] == full[..262144]
      && forall i | 0 <= i < |TRUNCATION_MARKER| :: sent[262144 + i] == (TRUNCATION_MARKER[i] as int % 256) as bv8
  }

  /** A reply carries the outcome of its command, and the tid and hash of its request. */
  ghost predicate Answers(req: RemCmdMsg, o: Outcome, res: RemResMsg) {
    && res.rc == o.rc && res.tid == req.tid && res.hsh == req.hsh
    && Shortened(o.out, res.out) && Shortened(o.err, res.err)
  }

  lemma TruncateShortens(s: Bytes)
    ensures Shortened(s, Truncate(s))
  {
    if |s| > 262144 {
      var sent := Truncate(s);
      assert sent == s[..262144] + Ascii(TRUNCATION_MARKER);
    }
  }

  function InvocationOf(req: RemCmdMsg): Invocation {
    Invocation(req.cmd, req.cmdtyp, req.cmdusr)
  }

  function ReplyTo(req: RemCmdMsg, o: Outcome): RemResMsg {
    RemResMsg(o.rc, req.tid, Truncate(o.out), Truncate(o.err), req.hsh)
  }

  lemma ReplyAnswers(req: RemCmdMsg, o: Outcome)
    ensures Answers(req, o, ReplyTo(req, o))
  {
    TruncateShortens(o.out);
    TruncateShortens(o.err);
  }

  /** Why a request is refused: the policy is asked first, the hash second, an empty hash never. */
  ghost function Refusal(p: Policy, req: RemCmdMsg): Option<Status> {
    match Verdict(p, req.cmd)
    case Some(why) => Some(PermissionDenied(why))
    case None => if req.hsh != "" && req.hsh != HashText(req.cmd) then Some(HashMismatch) else None
  }

  /** The refusals of a policy as a function of the request. */
  type Gate = RemCmdMsg -> Option<Status>

  ghost function GateOf(p: Policy): Gate {
    (req: RemCmdMsg) => Refusal(p, req)
  }

  /** The policy permits the command, and its hash is empty or reads as the checksum of the command. */
  ghost predicate Admits(p: Policy, req: RemCmdMsg) {
    Permits(p, req.cmd) && (req.hsh == "" || ParseHex(req.hsh) == Some(Crc32(req.cmd)))
  }

  /** For every request, whatever its hash: it is denied exactly when the policy does not permit its command,
      and it is a mismatch exactly when the policy does and a hash that is not empty does not read as
      the checksum of the command. */
  lemma RefusalMeans(p: Policy, req: RemCmdMsg)
    ensures Refusal(p, req).Some? && Refusal(p, req).value.PermissionDenied? <==> !Permits(p, req.cmd)
    ensures Refusal(p, req) == Some(HashMismatch)
            <==> Permits(p, req.cmd) && req.hsh != "" && ParseHex(req.hsh) != Some(Crc32(req.cmd))
    ensures Refusal(p, req).None? <==> Admits(p, req)
    ensures Refusal(p, req) != Some(Ok)
  {
    PrintedIffParses(req.hsh, Crc32(req.cmd));
  }

  /** The reason given for a denial. */
  lemma DenialMeans(p: Policy, cmd: Bytes)
    ensures var valid := AllValid(p.rx, p.allow) && AllValid(p.rx, p.deny);
            && (Verdict(p, cmd) == Some(BadConfiguration) <==> !valid)
            && (Verdict(p, cmd) == Some(OnDenylist(cmd)) <==> valid && SomeMatch(p.rx, p.deny, cmd))
            && (Verdict(p, cmd) == Some(NotOnAllowlist(cmd))
                <==> valid && !SomeMatch(p.rx, p.deny, cmd) && p.allow != [] && !SomeMatch(p.rx, p.allow, cmd))
  {
  }

  // ----- a stream of requests is RemCmd folded over them --------------------------------------

  datatype Served = Served(log: seq<Invocation>, executed: nat, replies: seq<RemResMsg>, status: Status)

  /** Requests served one by one until the first that the gate refuses. */
  ghost function ServeAll(gate: Gate, world: World, log: seq<Invocation>, reqs: seq<RemCmdMsg>): Served
    decreases |reqs|
  {
    if reqs == [] then Served(log, 0, [], Ok)
    else
      match gate(reqs[0])
      case Some(status) => Served(log, 0, [], status)
      case None =>
        var i := InvocationOf(reqs[0]);
        var rest := ServeAll(gate, world, log + [i], reqs[1..]);
        Served(rest.log, rest.executed + 1, [ReplyTo(reqs[0], world(log, i))] + rest.replies, rest.status)
  }

  lemma ServeAllRun(gate: Gate, world: World, log: seq<Invocation>, reqs: seq<RemCmdMsg>)
    requires reqs != [] && gate(reqs[0]).None?
    ensures var i := InvocationOf(reqs[0]);
            var rest := ServeAll(gate, world, log + [i], reqs[1..]);
            ServeAll(gate, world, log, reqs)
            == Served(rest.log, rest.executed + 1, [ReplyTo(reqs[0], world(log, i))] + rest.replies, rest.status)
  {
  }

  /** The number of requests before the first that is refused. */
  ghost function FirstRefused(gate: Gate, reqs: seq<RemCmdMsg>): (k: nat)
    ensures k <= |reqs|
    ensures k < |reqs| ==> gate(reqs[k]).Some?
    ensures forall i | 0 <= i < k :: gate(reqs[i]).None?
    decreases |reqs|
  {
    if reqs == [] || gate(reqs[0]).Some? then 0 else 1 + FirstRefused(gate, reqs[1..])
  }

  function Invocations(reqs: seq<RemCmdMsg>): (s: seq<Invocation>)
    ensures |s| == |reqs|
    ensures forall i :: 0 <= i < |reqs| ==> s[i] == Invocation(reqs[i].cmd, reqs[i].cmdtyp, reqs[i].cmdusr)
  {
    seq(|reqs|, i requires 0 <= i < |reqs| => InvocationOf(reqs[i]))
  }

  /** The reply to request i of a stream, when all before it were run. */
  function ReplyAt(world: World, log: seq<Invocation>, reqs: seq<RemCmdMsg>, i: nat): RemResMsg
    requires i < |reqs|
  {
    ReplyTo(reqs[i], world(log + Invocations(reqs[..i]), InvocationOf(reqs[i])))
  }

  lemma InvocationsSplit(reqs: seq<RemCmdMsg>, k: nat)
    requires 0 < k <= |reqs|
    ensures Invocations(reqs[..k]) == [InvocationOf(reqs[0])] + Invocations(reqs[1..][..k - 1])
  {
  }

  lemma LogSplit(log: seq<Invocation>, reqs: seq<RemCmdMsg>, k: nat)
    requires 0 < k <= |reqs|
    ensures log + Invocations(reqs[..k]) == (log + [InvocationOf(reqs[0])]) + Invocations(reqs[1..][..k - 1])
  {
    InvocationsSplit(reqs, k);
  }

  /** The replies of a stream shifted by one request. */
  lemma ReplyAtTail(world: World, log: seq<Invocation>, reqs: seq<RemCmdMsg>, i: nat)
    requires 0 < i < |reqs|
    ensures ReplyAt(world, log, reqs, i) == ReplyAt(world, log + [InvocationOf(reqs[0])], reqs[1..], i - 1)
  {
    LogSplit(log, reqs, i);
  }

  lemma ReplyAtHead(world: World, log: seq<Invocation>, reqs: seq<RemCmdMsg>)
    requires reqs != []
    ensures ReplyAt(world, log, reqs, 0) == ReplyTo(reqs[0], world(log, InvocationOf(reqs[0])))
  {
    assert log + Invocations(reqs[..0]) == log;
  }

  lemma {:induction false} ServeAllCounts(gate: Gate, world: World, log: seq<Invocation>, reqs: seq<RemCmdMsg>)
    ensures var k := FirstRefused(gate, reqs);
            var s := ServeAll(gate, world, log, reqs);
            && s.executed == k == |s.replies|
            && s.log == log + Invocations(reqs[..k])
            && s.status == (if k == |reqs| then Ok else gate(reqs[k]).value)
    decreases |reqs|
  {
    var k := FirstRefused(gate, reqs);
    if k == 0 {
      assert log + Invocations(reqs[..0]) == log;
    } else {
      var inv := InvocationOf(reqs[0]);
      ServeAllRun(gate, world, log, reqs);
      ServeAllCounts(gate, world, log + [inv], reqs[1..]);
      LogSplit(log, reqs, k);
    }
  }

  lemma {:induction false} ServeAllReplies(gate: Gate, world: World, log: seq<Invocation>, reqs: seq<RemCmdMsg>, i: nat)
    requires i < FirstRefused(gate, reqs)
    ensures i < |ServeAll(gate, world, log, reqs).replies|
    ensures ServeAll(gate, world, log, reqs).replies[i] == ReplyAt(world, log, reqs, i)
    decreases |reqs|
  {
    ServeAllRun(gate, world, log, reqs);
    if i == 0 {
      ReplyAtHead(world, log, reqs);
    } else {
      ServeAllReplies(gate, world, log + [InvocationOf(reqs[0])], reqs[1..], i - 1);
      ReplyAtTail(world, log, reqs, i);
    }
  }

  /** If request k is the first refused, exactly the requests before it run, in order, each gets
      its reply, and the stream ends with the status of request k. */
  lemma ServeAllClosedForm(gate: Gate, world: World, log: seq<Invocation>, reqs: seq<RemCmdMsg>)
    ensures var k := FirstRefused(gate, reqs);
            var s := ServeAll(gate, world, log, reqs);
            && s.executed == k == |s.replies|
            && s.log == log + Invocations(reqs[..k])
            && s.status == (if k == |reqs| then Ok else gate(reqs[k]).value)
            && forall i: nat :: i < k ==> s.replies[i] == ReplyAt(world, log, reqs, i)
  {
    ServeAllCounts(gate, world, log, reqs);
    forall i: nat | i < FirstRefused(gate, reqs)
      ensures ServeAll(gate, world, log, reqs).replies[i] == ReplyAt(world, log, reqs, i)
    {
      ServeAllReplies(gate, world, log, reqs, i);
    }
  }

  /** A stream served by a policy, request by request: the first k are admitted, run in order with what they
      ask for, and answered; the next, if there is one, is refused with its status and nothing of it runs. */
  ghost predicate StreamServed(p: Policy, world: World, log: seq<Invocation>, reqs: seq<RemCmdMsg>,
                               status: Status, log': seq<Invocation>, replies: seq<RemResMsg>)
  {
    var k := |replies|;
    && k <= |reqs| && |log'| == |log| + k && log'[..|log|] == log
    && (forall i | 0 <= i < k :: Admits(p, reqs[i]))
    && (forall i | 0 <= i < k ::
          log'[|log| + i] == Invocation(reqs[i].cmd, reqs[i].cmdtyp, reqs[i].cmdusr))
    && (forall i | 0 <= i < k ::
          Answers(reqs[i], world(log'[..|log| + i], log'[|log| + i]), replies[i]))
    && (if k == |reqs| then status == Ok
        else if Permits(p, reqs[k].cmd) then !Admits(p, reqs[k]) && status == HashMismatch
        else status.PermissionDenied?)
  }

  lemma ServedReplies(p: Policy, world: World, log: seq<Invocation>, reqs: seq<RemCmdMsg>, i: nat)
    requires i < FirstRefused(GateOf(p), reqs)
    ensures Admits(p, reqs[i])
    ensures var s := ServeAll(GateOf(p), world, log, reqs);
            && i < |s.replies| && |log| + i < |s.log|
            && Answers(reqs[i], world(s.log[..|log| + i], s.log[|log| + i]), s.replies[i])
  {
    var k := FirstRefused(GateOf(p), reqs);
    ServeAllClosedForm(GateOf(p), world, log, reqs);
    RefusalMeans(p, reqs[i]);
    var s := ServeAll(GateOf(p), world, log, reqs);
    assert s.log[..|log| + i] == log + Invocations(reqs[..i]);
    ReplyAnswers(reqs[i], world(log + Invocations(reqs[..i]), InvocationOf(reqs[i])));
  }

  lemma ServeAllIsServed(p: Policy, world: World, log: seq<Invocation>, reqs: seq<RemCmdMsg>)
    ensures var s := ServeAll(GateOf(p), world, log, reqs);
            s.executed == |s.replies| && StreamServed(p, world, log, reqs, s.status, s.log, s.replies)
  {
    var s := ServeAll(GateOf(p), world, log, reqs);
    var k := FirstRefused(GateOf(p), reqs);
    ServeAllClosedForm(GateOf(p), world, log, reqs);
    forall i | 0 <= i < k
      ensures Admits(p, reqs[i])
      ensures Answers(reqs[i], world(s.log[..|log| + i], s.log[|log| + i]), s.replies[i])
    {
      ServedReplies(p, world, log, reqs, i);
    }
    if k < |reqs| {
      RefusalMeans(p, reqs[k]);
    }
  }

  // ----- the integrity gate ------------------------------------------------------------------

  /** A command hashed by a client and not altered is refused by the policy or not at all. */
  lemma UnalteredPasses(p: Policy, req: RemCmdMsg)
    requires req.hsh == HashText(req.cmd)
    ensures Refusal(p, req).None? <==> Permits(p, req.cmd)
    ensures Refusal(p, req) != Some(HashMismatch)
  {
  }

  /** A permitted command altered without changing its length is refused exactly when the
      generator does not divide the polynomial of the altered bits. */
  lemma GateIsDivisibility(p: Policy, original: Bytes, req: RemCmdMsg)
    requires req.hsh == HashText(original) && |req.cmd| == |original|
    requires Permits(p, req.cmd)
    ensures Refusal(p, req) == Some(HashMismatch)
            <==> !Divides(GENERATOR, Of(Xor(MessageBits(original), MessageBits(req.cmd))))
  {
    CollideIffDivides(original, req.cmd);
    HashTextInjective(original, req.cmd);
  }

  /** A command damaged by a burst of up to 32 bits after it was hashed is always refused. */
  lemma BurstRefused(p: Policy, original: Bytes, req: RemCmdMsg, at: nat)
    requires req.hsh == HashText(original)
    requires DifferByBurst(original, req.cmd, at)
    ensures Refusal(p, req).Some?
    ensures Permits(p, req.cmd) ==> Refusal(p, req) == Some(HashMismatch)
  {
    BurstDetected(original, req.cmd, at);
    HashTextInjective(original, req.cmd);
  }

  lemma RefusalIsNotOk(p: Policy, reqs: seq<RemCmdMsg>)
    ensures forall i | 0 <= i < |reqs| :: GateOf(p)(reqs[i]) == Refusal(p, reqs[i])
    ensures forall i | 0 <= i < |reqs| :: Refusal(p, reqs[i]) != Some(Ok)
  {
  }

  /** In a stream, a damaged command is never run, nor is any command after it. */
  lemma BurstStopsStream(p: Policy, world: World, log: seq<Invocation>, reqs: seq<RemCmdMsg>,
                         i: nat, original: Bytes, at: nat)
    requires i < |reqs| && reqs[i].hsh == HashText(original)
    requires DifferByBurst(original, reqs[i].cmd, at)
    ensures var s := ServeAll(GateOf(p), world, log, reqs);
            && s.executed <= i
            && s.log == log + Invocations(reqs[..s.executed])
            && s.status != Ok
  {
    BurstRefused(p, original, reqs[i], at);
    ServeAllClosedForm(GateOf(p), world, log, reqs);
    RefusalIsNotOk(p, reqs);
  }

  // ----- the service -----------------------------------------------------------------------------

  /** ICmdStream: the requests still to be read and the replies handed to Write.
      Write may report failure at any point. */
  class CmdStream {
    const accepts: nat -> bool
    var inbox: seq<RemCmdMsg>
    var written: seq<RemResMsg>

    constructor (inbox: seq<RemCmdMsg>, accepts: nat -> bool)
      ensures this.inbox == inbox && written == [] && this.accepts == accepts
    {
      this.inbox := inbox;
      this.accepts := accepts;
      written := [];
    }

    method Read() returns (req: Option<RemCmdMsg>)
      modifies this
      ensures written == old(written)
      ensures old(inbox) == [] ==> req == None && inbox == []
      ensures old(inbox) != [] ==> req == Some(old(inbox)[0]) && inbox == old(inbox)[1..]
    {
      if inbox == [] {
        req := None;
      } else {
        req := Some(inbox[0]);
        inbox := inbox[1..];
      }
    }

    method Write(res: RemResMsg) returns (ok: bool)
      modifies this
      ensures inbox == old(inbox) && written == old(written) + [res]
      ensures ok == accepts(|old(written)|)
    {
      ok := accepts(|written|);
      written := written + [res];
    }
  }

  class RemSvcServiceImpl {
    const policy: Policy
    const runner: Runner
    var allowlist: seq<Bytes>
    var denylist: seq<Bytes>
    var denyAll: bool
    var commandsExecuted: nat

    /** What the constructor establishes and no call changes. */
    ghost predicate Valid()
      reads this
    {
      && denyAll == !(AllValid(policy.rx, policy.allow) && AllValid(policy.rx, policy.deny))
      && (AllValid(policy.rx, policy.allow) ==> allowlist == policy.allow)
      && (AllValid(policy.rx, policy.deny) ==> denylist == policy.deny)
    }

    constructor (runner: Runner, policy: Policy)
      ensures this.runner == runner && this.policy == policy
      ensures Valid() && commandsExecuted == 0
      ensures !AllValid(policy.rx, policy.allow) ==> allowlist == []
      ensures !AllValid(policy.rx, policy.deny) ==> denylist == []
    {
      this.runner := runner;
      this.policy := policy;
      allowlist, denylist, denyAll, commandsExecuted := [], [], false, 0;
      new;
      var i := 0;
      while i < |policy.allow|
        invariant 0 <= i <= |policy.allow|
        invariant allowlist == policy.allow[..i] && AllValid(policy.rx, policy.allow[..i])
        invariant !denyAll && denylist == [] && commandsExecuted == 0
      {
        if !policy.rx.valid(policy.allow[i]) {
          denyAll := true;
          allowlist := [];
          break;
        }
        allowlist := allowlist + [policy.allow[i]];
        i := i + 1;
      }
      assert !denyAll ==> policy.allow[..i] == policy.allow;
      assert denyAll <==> !AllValid(policy.rx, policy.allow);
      ghost var badAllow := denyAll;
      var j := 0;
      while j < |policy.deny|
        invariant 0 <= j <= |policy.deny|
        invariant denylist == policy.deny[..j] && AllValid(policy.rx, policy.deny[..j])
        invariant denyAll == badAllow && commandsExecuted == 0
        invariant if badAllow then allowlist == [] else allowlist == policy.allow
      {
        if !policy.rx.valid(policy.deny[j]) {
          denyAll := true;
          denylist := [];
          break;
        }
        denylist := denylist + [policy.deny[j]];
        j := j + 1;
      }
      assert j == |policy.deny| ==> policy.deny[..j] == policy.deny;
    }

    method CheckAllowed(cmd: Bytes) returns (denied: Option<Denial>)
      requires Valid()
      ensures denied == Verdict(policy, cmd)
      ensures denied.None? <==>
                && (forall i | 0 <= i < |policy.allow| :: policy.rx.valid(policy.allow[i]))
                && (forall i | 0 <= i < |policy.deny| ::
                      policy.rx.valid(policy.deny[i]) && !policy.rx.search(policy.deny[i], cmd))
                && (policy.allow == []
                    || exists i :: 0 <= i < |policy.allow| && policy.rx.search(policy.allow[i], cmd))
    {
      if denyAll {
        return Some(BadConfiguration);
      }
      var i := 0;
      while i < |denylist|
        invariant 0 <= i <= |denylist|
        invariant forall j | 0 <= j < i :: !policy.rx.search(denylist[j], cmd)
      {
        if policy.rx.search(denylist[i], cmd) {
          return Some(OnDenylist(cmd));
        }
        i := i + 1;
      }
      if allowlist == [] {
        return None;
      }
      i := 0;
      while i < |allowlist|
        invariant 0 <= i <= |allowlist|
        invariant forall j | 0 <= j < i :: !policy.rx.search(allowlist[j], cmd)
      {
        if policy.rx.search(allowlist[i], cmd) {
          return None;
        }
        i := i + 1;
      }
      return Some(NotOnAllowlist(cmd));
    }

    /** The two checks that RemCmd and processStream make in this order before they run a command. */
    method Refuse(req: RemCmdMsg) returns (refused: Option<Status>)
      requires Valid()
      ensures refused == Refusal(policy, req)
      ensures refused.None? <==> Admits(policy, req)
      ensures refused.Some? ==> if Permits(policy, req.cmd) then refused.value == HashMismatch
                                else refused.value.PermissionDenied?
    {
      RefusalMeans(policy, req);
      var denied := CheckAllowed(req.cmd);
      if denied.Some? {
        return Some(PermissionDenied(denied.value));
      }
      if req.hsh != "" {
        var expected := Crc32Hex(req.cmd);
        if req.hsh != expected {
          return Some(HashMismatch);
        }
      }
      return None;
    }

    /** Runs a command that passed both checks and builds its reply. */
    method Execute(req: RemCmdMsg) returns (res: RemResMsg)
      modifies this`commandsExecuted, runner
      ensures res == ReplyTo(req, runner.world(old(runner.log), InvocationOf(req)))
      ensures runner.log == old(runner.log) + [InvocationOf(req)]
      ensures commandsExecuted == old(commandsExecuted) + 1
    {
      var o := runner.Run(InvocationOf(req));
      commandsExecuted := commandsExecuted + 1;
      res := RemResMsg(o.rc, req.tid, Truncate(o.out), Truncate(o.err), req.hsh);
    }

    method RemCmd(req: RemCmdMsg) returns (status: Status, res: Option<RemResMsg>)
      requires Valid()
      modifies this`commandsExecuted, runner
      ensures Valid()
      ensures !Admits(policy, req) ==>
                && res == None && runner.log == old(runner.log) && commandsExecuted == old(commandsExecuted)
                && if Permits(policy, req.cmd) then status == HashMismatch else status.PermissionDenied?
      ensures Admits(policy, req) ==>
                && status == Ok
                && runner.log == old(runner.log) + [Invocation(req.cmd, req.cmdtyp, req.cmdusr)]
                && commandsExecuted == old(commandsExecuted) + 1
                && var o := runner.world(old(runner.log), Invocation(req.cmd, req.cmdtyp, req.cmdusr));
                   res.Some? && res.value == ReplyTo(req, o) && Answers(req, o, res.value)
    {
      var refused := Refuse(req);
      if refused.Some? {
        return refused.value, None;
      }
      var reply := Execute(req);
      ReplyAnswers(req, runner.world(old(runner.log), InvocationOf(req)));
      status, res := Ok, Some(reply);
    }

    /** One turn of the stream loop: the status it ends the stream with, or the reply it wrote. */
    method Turn(stream: CmdStream, ghost gate: Gate) returns (ended: Option<Status>, ghost reply: Option<RemResMsg>)
      requires Valid() && gate == GateOf(policy)
      modifies this`commandsExecuted, runner, stream
      ensures Valid()
      ensures ended.Some? ==>
                && runner.log == old(runner.log) && commandsExecuted == old(commandsExecuted)
                && stream.written == old(stream.written)
                && ended == if old(stream.inbox) == [] then Some(Ok) else gate(old(stream.inbox)[0])
      ensures ended.None? ==>
                && old(stream.inbox) != [] && gate(old(stream.inbox)[0]).None?
                && stream.inbox == old(stream.inbox)[1..]
                && commandsExecuted == old(commandsExecuted) + 1
                && var req := old(stream.inbox)[0];
                && runner.log == old(runner.log) + [InvocationOf(req)]
                && reply == Some(ReplyTo(req, runner.world(old(runner.log), InvocationOf(req))))
                && stream.written == old(stream.written) + [reply.value]
    {
      reply := None;
      var next := stream.Read();
      if next.None? {
        return Some(Ok), reply;
      }
      var refused := Refuse(next.value);
      if refused.Some? {
        return refused, reply;
      }
      var res := Execute(next.value);
      var ignored := stream.Write(res);
      return None, Some(res);
    }

    /** The loop of processStream. */
    method ServeRequests(stream: CmdStream) returns (status: Status)
      requires Valid()
      modifies this`commandsExecuted, runner, stream
      ensures Valid()
      ensures var s := ServeAll(GateOf(policy), runner.world, old(runner.log), old(stream.inbox));
              && status == s.status
              && runner.log == s.log
              && commandsExecuted == old(commandsExecuted) + s.executed
              && stream.written == old(stream.written) + s.replies
    {
      ghost var gate, world := GateOf(policy), runner.world;
      ghost var whole := ServeAll(gate, world, runner.log, stream.inbox);
      ghost var rest, replies := whole, [];
      while true
        invariant Valid()
        invariant rest == ServeAll(gate, world, runner.log, stream.inbox)
        invariant rest.status == whole.status && rest.log == whole.log
        invariant commandsExecuted + rest.executed == old(commandsExecuted) + whole.executed
        invariant replies + rest.replies == whole.replies
        invariant stream.written == old(stream.written) + replies
        decreases |stream.inbox|
      {
        ghost var log, reqs := runner.log, stream.inbox;
        var ended, reply := Turn(stream, gate);
        if ended.Some? {
          return ended.value;
        }
        ServeAllRun(gate, world, log, reqs);
        rest := ServeAll(gate, world, runner.log, stream.inbox);
        ConcatAssoc(replies, [reply.value], rest.replies);
        ConcatAssoc(old(stream.written), replies, [reply.value]);
        replies := replies + [reply.value];
      }
    }

    method ProcessStream(stream: CmdStream) returns (status: Status)
      requires Valid()
      modifies this`commandsExecuted, runner, stream
      ensures Valid()
      ensures var s := ServeAll(GateOf(policy), runner.world, old(runner.log), old(stream.inbox));
              && status == s.status
              && runner.log == s.log
              && commandsExecuted == old(commandsExecuted) + s.executed
              && stream.written == old(stream.written) + s.replies
              && s.executed == |s.replies|
              && StreamServed(policy, runner.world, old(runner.log), old(stream.inbox), status, runner.log, s.replies)
    {
      ServeAllIsServed(policy, runner.world, runner.log, stream.inbox);
      status := ServeRequests(stream);
    }
  }
}
