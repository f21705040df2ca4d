/**
 src/server/RemSvcServiceImpl.cc, runInProcess: the loop that drains a child's output, with an
 abstract child that writes through bounded pipes whenever it likes.
 */
module Drain {
  import opened Common

  /** What the child does between two operations of the parent. */
  datatype ChildStep = ChildStep(out: Bytes, err: Bytes, exits: bool)

  function Fitting(pipe: Bytes, data: Bytes, capacity: nat): (d: Bytes)
    ensures d <= data
    ensures |pipe| <= capacity ==> |pipe| + |d| <= capacity && (d == data || |pipe| + |d| == capacity)
  {
    var room := capacity - |pipe|;
    if room <= 0 then [] else if |data| <= room then data else data[..room]
  }

  class Child {
    const schedule: nat -> ChildStep
    const capacity: nat
    const exitCode: int
    var step: nat
    var running: bool
    var outPipe: Bytes
    var errPipe: Bytes
    var wroteOut: Bytes
    var wroteErr: Bytes

    ghost predicate Valid()
      reads this
    {
      |outPipe| <= capacity && |errPipe| <= capacity
    }

    constructor (schedule: nat -> ChildStep, capacity: nat, exitCode: int)
      ensures Valid() && running && step == 0
      ensures outPipe == errPipe == wroteOut == wroteErr == []
    {
      this.schedule, this.capacity, this.exitCode := schedule, capacity, exitCode;
      step, running := 0, true;
      outPipe, errPipe, wroteOut, wroteErr := [], [], [], [];
    }

    /** A step of a running child: it writes what fits, and may exit.  An exited child does nothing. */
    method Advance()
      requires Valid()
      modifies this
      ensures Valid() && step == old(step) + 1
      ensures running == (old(running) && !schedule(old(step)).exits)
      ensures old(running) ==>
                var s := schedule(old(step));
                var d, e := Fitting(old(outPipe), s.out, capacity), Fitting(old(errPipe), s.err, capacity);
                && outPipe == old(outPipe) + d && wroteOut == old(wroteOut) + d
                && errPipe == old(errPipe) + e && wroteErr == old(wroteErr) + e
      ensures !old(running) ==>
                && outPipe == old(outPipe) && wroteOut == old(wroteOut)
                && errPipe == old(errPipe) && wroteErr == old(wroteErr)
    {
      if running {
        var s := schedule(step);
        var d, e := Fitting(outPipe, s.out, capacity), Fitting(errPipe, s.err, capacity);
        outPipe, wroteOut := outPipe + d, wroteOut + d;
        errPipe, wroteErr := errPipe + e, wroteErr + e;
        running := !s.exits;
      }
      step := step + 1;
    }

    /** readAllStandardOutput */
    method ReadOut() returns (data: Bytes)
      requires Valid()
      modifies this`outPipe
      ensures Valid() && data == old(outPipe) && outPipe == []
    {
      data := outPipe;
      outPipe := [];
    }

    /** readAllStandardError */
    method ReadErr() returns (data: Bytes)
      requires Valid()
      modifies this`errPipe
      ensures Valid() && data == old(errPipe) && errPipe == []
    {
      data := errPipe;
      errPipe := [];
    }
  }

  /** The child did not exit in any of its steps from .. to - 1. */
  ghost predicate NoExit(schedule: nat -> ChildStep, from: nat, to: nat) {
    forall i: nat | from <= i < to :: !schedule(i).exits
  }

  lemma AppendPipe(all: Bytes, pipe: Bytes, d: Bytes, wrote: Bytes)
    requires all + pipe == wrote
    ensures all + (pipe + d) == wrote + d
    ensures (all + pipe) + [] == wrote
  {
  }

  /** A step of the child between two reads of the parent. */
  method ChildActs(c: Child, outAll: Bytes, errAll: Bytes)
    requires c.Valid() && outAll + c.outPipe == c.wroteOut && errAll + c.errPipe == c.wroteErr
    modifies c
    ensures c.Valid() && outAll + c.outPipe == c.wroteOut && errAll + c.errPipe == c.wroteErr
    ensures c.step == old(c.step) + 1
    ensures c.running == (old(c.running) && !c.schedule(old(c.step)).exits)
    ensures !old(c.running) ==> c.outPipe == old(c.outPipe) && c.errPipe == old(c.errPipe)
                                && c.wroteOut == old(c.wroteOut) && c.wroteErr == old(c.wroteErr)
  {
    ghost var o, e := c.outPipe, c.errPipe;
    ghost var wo, we, s := c.wroteOut, c.wroteErr, c.schedule(c.step);
    c.Advance();
    AppendPipe(outAll, o, Fitting(o, s.out, c.capacity), wo);
    AppendPipe(errAll, e, Fitting(e, s.err, c.capacity), we);
  }

  /** One turn of the loop body: wait, read both channels. */
  method Poll(c: Child, outAll: Bytes, errAll: Bytes) returns (outMore: Bytes, errMore: Bytes)
    requires c.Valid() && outAll + c.outPipe == c.wroteOut && errAll + c.errPipe == c.wroteErr
    modifies c
    ensures c.Valid() && outMore + c.outPipe == c.wroteOut && errMore + c.errPipe == c.wroteErr
    ensures c.step == old(c.step) + 3
    ensures c.running == (old(c.running) && NoExit(c.schedule, old(c.step), c.step))
  {
    ChildActs(c, outAll, errAll);
    var o := c.ReadOut();
    outMore := outAll + o;
    assert outMore + [] == outMore;
    ChildActs(c, outMore, errAll);
    var e := c.ReadErr();
    errMore := errAll + e;
    assert errMore + [] == errMore;
    ChildActs(c, outMore, errMore);
  }

  lemma NoExitJoin(schedule: nat -> ChildStep, a: nat, b: nat, c: nat)
    requires a <= b <= c
    ensures NoExit(schedule, a, c) <==> NoExit(schedule, a, b) && NoExit(schedule, b, c)
  {
  }

  /** runInProcess from the drain loop on, where a turn is three steps of the child and polls is the number of
      turns before the deadline.  For every schedule: a child that exits before the check that follows
      the last turn is seen to have exited, within the turn and that check, and then out and err are
      exactly what it wrote, in order, up to its last byte; a child that does not is given every turn before
      it is given up, and out is untouched. */
  method RunInProcess(c: Child, polls: nat, out: Bytes, err: Bytes, timedOut: Bytes)
    returns (rc: int, out': Bytes, err': Bytes, finished: bool)
    requires c.Valid() && c.running && c.outPipe == c.wroteOut && c.errPipe == c.wroteErr
    modifies c
    ensures finished <==> !NoExit(c.schedule, old(c.step), old(c.step) + 3 * polls + 1)
    ensures finished ==> c.step <= old(c.step) + 3 * polls + 1
    ensures finished ==> !NoExit(c.schedule, old(c.step), c.step)
    ensures finished && c.step > old(c.step) + 4 ==> NoExit(c.schedule, old(c.step), c.step - 4)
    ensures !finished ==> c.step == old(c.step) + 3 * polls + 1
    ensures finished ==> rc == c.exitCode && out' == c.wroteOut
    ensures finished ==> err' == if c.wroteErr == [] then err else c.wroteErr
    ensures !finished ==> rc == 1 && out' == out && err' == timedOut
  {
    var outAll, errAll: Bytes := [], [];
    assert outAll + c.outPipe == c.outPipe && errAll + c.errPipe == c.errPipe;
    var n := 0;
    while n < polls
      invariant 0 <= n <= polls && c.step == old(c.step) + 3 * n
      invariant c.Valid() && outAll + c.outPipe == c.wroteOut && errAll + c.errPipe == c.wroteErr
      invariant c.running && NoExit(c.schedule, old(c.step), c.step)
    {
      ghost var from := c.step;
      outAll, errAll := Poll(c, outAll, errAll);
      NoExitJoin(c.schedule, old(c.step), from, c.step);
      n := n + 1;
      if !c.running {
        break;
      }
    }
    ghost var from := c.step;
    ChildActs(c, outAll, errAll);
    NoExitJoin(c.schedule, old(c.step), from, c.step);
    if c.running {
      return 1, out, timedOut, false;
    }
    NoExitJoin(c.schedule, old(c.step), c.step, old(c.step) + 3 * polls + 1);
    var o := c.ReadOut();
    outAll := outAll + o;
    var e := c.ReadErr();
    errAll := errAll + e;
    rc, out', finished := c.exitCode, outAll, true;
    err' := if errAll != [] then errAll else err;
  }
}
