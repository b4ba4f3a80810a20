/** equiv-threads.c as the source has it: global state updated in place by the trap handlers. */
module Scheduler {
  import opened Sequences
  import opened Words
  import opened Machine

  datatype Option<+T> = None | Some(value: T)
  datatype Schedule = Schedule(tids: seq<nat>, counts: seq<nat>)

  class Threads<!L> {
    const progs: seq<Program<L>>
    var regs: seq<L>
    var queue: seq<nat>
    var cur: nat
    var schedule: Option<Schedule>  // None is the NULL pointer
    var shared: set<Word>
    var ctxSwitch: nat
    var instrCount: nat
    var doCount: bool
    var yielded: bool
    var mem: Memory
    var event: Event
    var mode: Mode
    ghost var finished: set<nat>
    ghost var log: seq<Entry>

    /** The state as the configuration that Machine describes. */
    ghost function Conf(): Config<L>
      reads this
    {
      Config(mem, regs, queue, cur, schedule.Some?, ctxSwitch, instrCount, doCount, yielded, event, mode, finished, log)
    }

    /** The object runs s: an installed schedule is s's. */
    ghost predicate Runs(s: Setup<L>)
      reads this
    {
      && s.progs == progs && s.shared == shared
      && (schedule.Some? ==> schedule.value == Schedule(s.tids, s.counts))
    }

    constructor (progs: seq<Program<L>>, mem: Memory)
      ensures this.progs == progs && queue == []
    {
      this.progs := progs;
      this.mem := mem;
      regs, queue, cur, schedule, shared := [], [], 0, None, {};
      ctxSwitch, instrCount, doCount, yielded := 0, 0, false, false;
      event, mode, finished, log := Boundary, Done, {}, [];
    }

    /** None is the panic (the thread is not queued) or the dereference of what an empty queue pops. */
    method RetrieveTidFromQueue(tid: nat) returns (r: Option<nat>)
      requires Distinct(queue)
      modifies this`queue
      ensures r.Some? <==> tid in old(queue)
      ensures r.Some? ==> r.value == tid && queue == Rotated(old(queue), tid)
    {
      ghost var q := queue;
      if queue == [] { return None; }
      var th := queue[0];
      queue := queue[1..];
      var first := th;
      ghost var i: nat := 0;
      while th != tid
        invariant i < |q| && th == q[i] && queue == q[i + 1..] + q[..i] && first == q[0]
        invariant tid !in q[..i]
        decreases |q| - i
      {
        var oldThread := th;
        assert q[..i + 1] == q[..i] + [th];
        if queue == [] {
          assert q == q[..i + 1];
          return None;
        }
        th := queue[0];
        queue := queue[1..];
        queue := queue + [oldThread];
        assert th == if i + 1 < |q| then q[i + 1] else q[0];
        if th == first {
          assert q == q[..i + 1];
          return None;
        }
        assert i + 1 < |q|;
        i := i + 1;
      }
      IndexOfAt(q, tid, i);
      return Some(th);
    }

    /** Data abort. */
    method CtxSwitchHandler(touched: set<Word>, ghost s: Setup<L>)
      requires Runs(s)
      modifies this`doCount
      ensures Conf() == TouchHandler(s, old(Conf()), touched)
    {
      if schedule == None { return; }
      if ctxSwitch >= |schedule.value.counts| { return; }
      var intersection := shared * touched;
      if intersection != {} {
        doCount := true;
      }
    }

    /** The thread that was running is the last in the queue, and the others wait in the order in which they did, those
        before the thread that runs now after those behind it. */
    ghost predicate Switched(oldQueue: seq<nat>, oldCur: nat)
      reads this
    {
      && queue != [] && queue[|queue| - 1] == oldCur
      && CyclicAfter(oldQueue, cur, queue[..|queue| - 1])
    }

    /** Prefetch abort: count the instruction that just touched shared memory, and switch when the count is reached. */
    method EquivHashHandler(ghost s: Setup<L>)
      requires Runs(s) && Distinct(queue)
      modifies this
      ensures Runs(s)
      ensures mode != Crashed ==> Conf() == StepHandler(s, old(Conf()))
      ensures mode == Crashed <==> StepHandler(s, old(Conf())).mode == Crashed
      ensures mode != Crashed && ctxSwitch != old(ctxSwitch) ==> Switched(old(queue), old(cur))
    {
      hide Distinct, Rotated, IndexOf, CyclicAfter;
      if !doCount {
        event := Resume;
      } else {
        CountTouch(s);
      }
    }

    /** The part of the handler for an instruction that touched shared memory. */
    method CountTouch(ghost s: Setup<L>)
      requires Runs(s) && Distinct(queue) && doCount
      modifies this
      ensures Runs(s)
      ensures mode != Crashed ==> Conf() == StepHandler(s, old(Conf()))
      ensures mode == Crashed <==> StepHandler(s, old(Conf())).mode == Crashed
      ensures mode != Crashed && ctxSwitch != old(ctxSwitch) ==> Switched(old(queue), old(cur))
    {
      hide Distinct, Rotated, IndexOf, CyclicAfter;
      if schedule == None || ctxSwitch >= |schedule.value.counts| {
        mode := Crashed;
        return;
      }
      doCount := false;
      instrCount := instrCount + 1;
      event := Resume;
      if instrCount >= schedule.value.counts[ctxSwitch] {
        ctxSwitch := ctxSwitch + 1;
        instrCount := 0;
        if ctxSwitch >= |schedule.value.tids| {
          mode := Crashed;
          return;
        }
        var th := RetrieveTidFromQueue(schedule.value.tids[ctxSwitch]);
        if th == None {
          mode := Crashed;
          return;
        }
        RotatedIsCyclic(old(queue), th.value);
        ghost var others := queue;
        queue := queue + [cur];
        cur := th.value;
        assert queue[..|queue| - 1] == others;
      }
    }

    method SysPutc(l: L, ghost s: Setup<L>)
      requires Runs(s) && 1 <= cur <= |regs| == |progs|
      requires progs[cur - 1].step(regs[cur - 1], mem) == Op.Putc(l)
      requires event == Resume
      modifies this
      ensures Runs(s) && Conf() == Execute(s, old(Conf()))
    {
      if schedule.Some? && ctxSwitch < |schedule.value.counts| {
        mode := Crashed;  // panic("BAD")
        return;
      }
      regs := regs[cur - 1 := l];
      if queue != [] {
        var th := queue[0];
        queue := queue[1..];
        queue := queue + [cur];
        cur := th;
      }
    }

    method SysYield(l: L, ghost s: Setup<L>)
      requires Runs(s) && 1 <= cur <= |regs| == |progs|
      requires progs[cur - 1].step(regs[cur - 1], mem) == Op.Yield(l)
      requires event == Resume
      modifies this
      ensures Runs(s) && Conf() == Execute(s, old(Conf()))
    {
      hide Execute;
      ExecuteYield(s, Conf(), l);
      regs := regs[cur - 1 := l];
      schedule := None;
      yielded := true;
      queue := queue + [cur];
      cur := queue[0];
      queue := queue[1..];
    }

    method SysExit(ghost s: Setup<L>)
      requires Runs(s) && 1 <= cur <= |regs| == |progs|
      requires progs[cur - 1].step(regs[cur - 1], mem) == Op.Exit
      requires event == Resume
      modifies this
      ensures Runs(s) && Conf() == Execute(s, old(Conf()))
    {
      schedule := None;
      finished := finished + {cur};
      if queue == [] {
        mode := Done;
      } else {
        cur := queue[0];
        queue := queue[1..];
      }
    }

    /** An ordinary instruction, with the data abort it takes when it touches memory. */
    method Instruction(l: L, m: Memory, touched: set<Word>, ghost s: Setup<L>)
      requires Runs(s) && 1 <= cur <= |regs| == |progs|
      requires progs[cur - 1].step(regs[cur - 1], mem) == Op.Exec(l, m, touched)
      modifies this
      ensures Runs(s) && Conf() == Execute(s, old(Conf()))
    {
      hide Execute, TouchHandler;
      ExecuteExec(s, Conf(), l, m, touched);
      CtxSwitchHandler(touched, s);
      log := log + [Entry(cur, ctxSwitch, shared * touched != {})];
      regs := regs[cur - 1 := l];
      mem := m;
      event := Boundary;
    }

    /** The next trap, whichever it is. */
    method Trap(ghost s: Setup<L>)
      requires Runs(s) && Distinct(queue) && 1 <= cur <= |regs| == |progs|
      requires mode == Running && Step(s, Conf()).mode != Crashed
      modifies this
      ensures Runs(s) && Conf() == Step(s, old(Conf()))
    {
      if event == Boundary {
        EquivHashHandler(s);
      } else {
        match progs[cur - 1].step(regs[cur - 1], mem)
        case Exec(l, m, touched) => Instruction(l, m, touched, s);
        case Putc(l) => SysPutc(l, s);
        case Yield(l) => SysYield(l, s);
        case Exit => SysExit(s);
      }
    }

    /** `reset_threads`: registers back to the entry point, and every thread pushed on the queue. */
    method ResetThreads()
      requires queue == []
      modifies this`regs, this`queue
      ensures queue == ResetQueue(|progs|)
      ensures regs == Entries(progs)
    {
      regs := [];
      for i := 0 to |progs|
        invariant |regs| == i && forall j :: 0 <= j < i ==> regs[j] == progs[j].entry
        invariant |queue| == i && forall j :: 0 <= j < i ==> queue[j] == i - j
      {
        regs := regs + [progs[i].entry];
        queue := [i + 1] + queue;
      }
    }

    /** From the first trap until every thread has exited. */
    method RunToCompletion(ghost s: Setup<L>)
      requires Runs(s) && ValidSetup(s) && Finishes(s) && Conf() == Start(s)
      modifies this
      ensures Conf() == Final(s)
    {
      hide Step, Start, Inv;
      ghost var n: nat := 0;
      while mode == Running
        invariant Runs(s) && Conf() == RunN(s, n) && n <= Length(s)
        decreases Length(s) - n
      {
        FinishedRunSteps(s, n);
        Trap(s);
        n := n + 1;
      }
      FinishedRunSteps(s, n);
      FinalUnique(s, n);
    }

    /** `equiv_run`. */
    method EquivRun(ghost s: Setup<L>)
      requires Runs(s) && ValidSetup(s) && Finishes(s) && Conf().(cur := 0) == Initial(s)
      modifies this
      ensures Conf() == Final(s)
    {
      StartInv(s);
      var th := RetrieveTidFromQueue(schedule.value.tids[0]);
      hide Inv, ResetQueue, Rotated;
      cur := th.value;
      RunToCompletion(s);
    }

    /** `enable_ctx_switch`. */
    method EnableCtxSwitch(tids: seq<nat>, counts: seq<nat>, sharedMemory: set<Word>)
      modifies this`schedule, this`shared, this`ctxSwitch, this`instrCount, this`doCount, this`yielded
      ensures schedule == Some(Schedule(tids, counts)) && shared == sharedMemory
      ensures ctxSwitch == 0 && instrCount == 0 && !doCount && !yielded
    {
      schedule, shared := Some(Schedule(tids, counts)), sharedMemory;
      ctxSwitch, instrCount, doCount, yielded := 0, 0, false, false;
    }

    /** init(); reset_threads(); enable_ctx_switch(). */
    method Prepare(init: Memory, tids: seq<nat>, counts: seq<nat>, sharedMemory: set<Word>)
      requires queue == []
      modifies this
      ensures var s := Setup(progs, init, sharedMemory, tids, counts); Runs(s) && Conf().(cur := 0) == Initial(s)
    {
      hide ResetQueue, Entries, Distinct, Rotated, StepHandler, Execute;
      ResetThreads();
      EnableCtxSwitch(tids, counts, sharedMemory);
      mem := init;
      event, mode, finished, log := Boundary, Running, {}, [];
    }

    /** One schedule from start to finish, and get_ctx_switch_status(). */
    method Run(init: Memory, tids: seq<nat>, counts: seq<nat>, sharedMemory: set<Word>)
      returns (switches: nat, didYield: bool)
      requires queue == []
      requires var s := Setup(progs, init, sharedMemory, tids, counts); ValidSetup(s) && Finishes(s)
      modifies this
      ensures queue == []
      ensures var f := Final(Setup(progs, init, sharedMemory, tids, counts));
        mem == f.mem && switches == f.ctxSwitch && didYield == f.yielded
    {
      ghost var s := Setup(progs, init, sharedMemory, tids, counts);
      hide Initial, Inv, ValidSetup;
      Prepare(init, tids, counts, sharedMemory);
      EquivRun(s);
      FinishedRunSteps(s, Length(s));
      return ctxSwitch, yielded;
    }
  }
}
