/** interleaver.c: the functions run one after the other to the end, which is what schedules are judged by. */
module SerialRuns {
  import opened Sequences
  import opened Words
  import opened Machine
  import opened Permutations

  // ---- one function called directly, without single stepping ----

  datatype Solo<L> = At(reg: L, mem: Memory) | Returned(mem: Memory) | Trapped

  function SoloStep<L>(prog: Program<L>, s: Solo<L>): Solo<L> {
    if !s.At? then s else
    match prog.step(s.reg, s.mem)
    case Exec(l, m, _) => At(l, m)
    case Exit => Returned(s.mem)
    case _ => Trapped  // a system call made outside any thread
  }

  function SoloN<L>(prog: Program<L>, mem: Memory, n: nat): Solo<L> {
    if n == 0 then At(prog.entry, mem) else SoloStep(prog, SoloN(prog, mem, n - 1))
  }

  ghost predicate Returns<L>(prog: Program<L>, mem: Memory) {
    exists n :: SoloN(prog, mem, n).Returned?
  }

  /** The memory once the function has returned. */
  ghost function After<L>(prog: Program<L>, mem: Memory): Memory
    requires Returns(prog, mem)
  {
    var n :| SoloN(prog, mem, n).Returned?;
    SoloN(prog, mem, n).mem
  }

  lemma {:induction false} SoloStays<L>(prog: Program<L>, mem: Memory, n: nat, m: nat)
    requires n <= m && !SoloN(prog, mem, n).At?
    ensures SoloN(prog, mem, m) == SoloN(prog, mem, n)
  {
    if n < m {
      SoloStays(prog, mem, n, m - 1);
    }
  }

  /** However long one watches, a function returns with one memory. */
  lemma AfterUnique<L>(prog: Program<L>, mem: Memory, n: nat)
    requires SoloN(prog, mem, n).Returned?
    ensures Returns(prog, mem) && After(prog, mem) == SoloN(prog, mem, n).mem
  {
    var m :| SoloN(prog, mem, m).Returned? && After(prog, mem) == SoloN(prog, mem, m).mem;
    if n <= m {
      SoloStays(prog, mem, n, m);
    } else {
      SoloStays(prog, mem, m, n);
    }
  }

  method Call<L>(prog: Program<L>, mem: Memory) returns (after: Memory)
    requires Returns(prog, mem)
    ensures after == After(prog, mem)
  {
    var s: Solo<L> := At(prog.entry, mem);
    ghost var end: nat :| SoloN(prog, mem, end).Returned?;
    ghost var n: nat := 0;
    while s.At?
      invariant s == SoloN(prog, mem, n) && n <= end
      decreases end - n
    {
      if n == end { assert false; }
      s := SoloStep(prog, s);
      n := n + 1;
    }
    SoloStays(prog, mem, n, end);
    AfterUnique(prog, mem, n);
    after := s.mem;
  }

  // ---- a serial execution ----

  ghost predicate SerialReturns<L>(progs: seq<Program<L>>, order: seq<int>, mem: Memory) {
    order == [] ||
    (0 <= order[0] < |progs| && Returns(progs[order[0]], mem) && SerialReturns(progs, order[1..], After(progs[order[0]], mem)))
  }

  /** The memory after the functions have run to the end one after the other. */
  ghost function SerialMemory<L>(progs: seq<Program<L>>, order: seq<int>, mem: Memory): Memory
    requires SerialReturns(progs, order, mem)
  {
    if order == [] then mem else SerialMemory(progs, order[1..], After(progs[order[0]], mem))
  }

  // ---- the scheduler with no switches left runs the threads serially ----

  /** No switch is asked for, and the current thread is about to go on. */
  ghost predicate Uninterrupted<L>(s: Setup<L>, c: Config<L>) {
    && s.counts == [] && c.mode == Running && c.event == Resume && !c.doCount
    && 1 <= c.cur <= |c.regs| == s.N()
  }

  /** Two traps per ordinary instruction. */
  lemma TwoTraps<L>(s: Setup<L>, c: Config<L>, l: L, m: Memory, touched: set<Word>)
    requires Uninterrupted(s, c) && s.progs[c.cur - 1].step(c.regs[c.cur - 1], c.mem) == Exec(l, m, touched)
    ensures var c' := Step(s, Step(s, c)); c' == c.(mem := m, regs := c.regs[c.cur - 1 := l], log := c'.log)
  {
    hide SaveRegs;
    assert SaveRegs(c, l) == c.(regs := c.regs[c.cur - 1 := l]) by { Saved(c, l); }
  }

  /** The thread goes through the states it goes through on its own. */
  lemma {:induction false} SoloInMachine<L>(s: Setup<L>, n0: nat, m: nat)
    requires Uninterrupted(s, RunN(s, n0))
    requires var c := RunN(s, n0); var prog := s.progs[c.cur - 1];
      c.regs[c.cur - 1] == prog.entry && SoloN(prog, c.mem, m).At?
    ensures var c := RunN(s, n0); var solo := SoloN(s.progs[c.cur - 1], c.mem, m); var c' := RunN(s, n0 + 2 * m);
      c' == c.(mem := solo.mem, regs := c.regs[c.cur - 1 := solo.reg], log := c'.log)
  {
    hide RunN, Step;
    var c := RunN(s, n0);
    if m > 0 {
      SoloInMachine(s, n0, m - 1);
      var c1 := RunN(s, n0 + 2 * (m - 1));
      var Exec(l, mem, touched) := s.progs[c.cur - 1].step(c1.regs[c.cur - 1], c1.mem);
      TwoTraps(s, c1, l, mem, touched);
      RunStep(s, n0 + 2 * m - 2);
      RunStep(s, n0 + 2 * m - 1);
    } else {
      assert c.regs[c.cur - 1 := c.regs[c.cur - 1]] == c.regs;
    }
  }

  lemma RunStep<L>(s: Setup<L>, n: nat)
    ensures RunN(s, n + 1) == Step(s, RunN(s, n))
  {
  }

  /** A function that returns does so by its exit. */
  lemma {:induction false} LastStep<L>(prog: Program<L>, mem: Memory, n: nat) returns (m: nat)
    requires SoloN(prog, mem, n).Returned?
    ensures SoloN(prog, mem, m).At? && SoloN(prog, mem, m + 1).Returned?
  {
    if SoloN(prog, mem, n - 1).Returned? {
      m := LastStep(prog, mem, n - 1);
    } else {
      m := n - 1;
    }
  }

  /** Threads are numbered from 1, functions from 0. */
  function OrderOf(q: seq<nat>): (order: seq<int>)
    ensures |order| == |q| && forall i :: 0 <= i < |q| ==> order[i] == q[i] as int - 1
  {
    seq(|q|, i requires 0 <= i < |q| => q[i] as int - 1)
  }

  lemma ExitTrap<L>(s: Setup<L>, c: Config<L>)
    requires Uninterrupted(s, c) && s.progs[c.cur - 1].step(c.regs[c.cur - 1], c.mem).Exit?
    ensures var c' := Step(s, c);
      && c'.mem == c.mem && c'.yielded == c.yielded && c'.ctxSwitch == c.ctxSwitch && c'.regs == c.regs
      && c'.doCount == c.doCount && c'.event == Resume
      && (if c.queue == [] then c'.mode == Done
          else c'.mode == Running && c'.cur == c.queue[0] && c'.queue == c.queue[1..])
  {
    hide SaveRegs, TouchHandler, StepHandler;
  }

  /** The current thread runs to its exit, and the next one in the queue is current. */
  lemma ThreadRunsAlone<L>(s: Setup<L>, n0: nat) returns (n: nat)
    requires Uninterrupted(s, RunN(s, n0))
    requires var c := RunN(s, n0); c.regs[c.cur - 1] == s.progs[c.cur - 1].entry && Returns(s.progs[c.cur - 1], c.mem)
    ensures var c := RunN(s, n0); var c' := RunN(s, n);
      && c'.mem == After(s.progs[c.cur - 1], c.mem) && c'.yielded == c.yielded && c'.ctxSwitch == c.ctxSwitch
      && |c'.regs| == |c.regs| && (forall t :: 0 <= t < |c.regs| && t != c.cur - 1 ==> c'.regs[t] == c.regs[t])
      && c'.doCount == c.doCount && c'.event == Resume
      && (if c.queue == [] then c'.mode == Done
          else c'.mode == Running && c'.cur == c.queue[0] && c'.queue == c.queue[1..])
  {
    hide RunN, Step;
    var c := RunN(s, n0);
    var prog := s.progs[c.cur - 1];
    var end: nat :| SoloN(prog, c.mem, end).Returned?;
    var m := LastStep(prog, c.mem, end);
    SoloInMachine(s, n0, m);
    AfterUnique(prog, c.mem, m + 1);
    n := n0 + 2 * m + 1;
    RunStep(s, n0 + 2 * m);
    ExitTrap(s, RunN(s, n0 + 2 * m));
  }

  /** The threads of the list q, which are all different, are at their entries. */
  ghost predicate AtEntries<L>(s: Setup<L>, regs: seq<L>, q: seq<nat>) {
    && |regs| == s.N() && Distinct(q)
    && forall i :: 0 <= i < |q| ==> 1 <= q[i] <= s.N() && regs[q[i] - 1] == s.progs[q[i] - 1].entry
  }

  lemma OthersAtEntries<L>(s: Setup<L>, regs: seq<L>, regs': seq<L>, t: nat, queue: seq<nat>)
    requires AtEntries(s, regs, [t] + queue) && |regs'| == |regs|
    requires forall u :: 0 <= u < |regs| && u != t - 1 ==> regs'[u] == regs[u]
    ensures 1 <= t <= s.N() && regs[t - 1] == s.progs[t - 1].entry && AtEntries(s, regs', queue)
  {
    var q := [t] + queue;
    assert q[0] == t;
    assert forall i :: 0 <= i < |queue| ==> queue[i] == q[i + 1];
  }

  lemma SerialUnfold<L>(progs: seq<Program<L>>, t: nat, queue: seq<nat>, mem: Memory)
    requires 1 <= t <= |progs| && SerialReturns(progs, OrderOf([t] + queue), mem)
    ensures Returns(progs[t - 1], mem) && SerialReturns(progs, OrderOf(queue), After(progs[t - 1], mem))
    ensures SerialMemory(progs, OrderOf([t] + queue), mem) ==
            SerialMemory(progs, OrderOf(queue), After(progs[t - 1], mem))
  {
    var order := OrderOf([t] + queue);
    assert order[0] == t - 1 && order[1..] == OrderOf(queue);
  }

  /** From the current thread on, the whole queue runs serially. */
  lemma {:induction false} QueueRunsSerially<L>(s: Setup<L>, n0: nat) returns (n: nat)
    requires Uninterrupted(s, RunN(s, n0))
    requires var c := RunN(s, n0);
      AtEntries(s, c.regs, [c.cur] + c.queue) && SerialReturns(s.progs, OrderOf([c.cur] + c.queue), c.mem)
    ensures var c := RunN(s, n0); var c' := RunN(s, n);
      && c'.mode == Done && c'.mem == SerialMemory(s.progs, OrderOf([c.cur] + c.queue), c.mem)
      && c'.yielded == c.yielded && c'.ctxSwitch == c.ctxSwitch
    decreases |RunN(s, n0).queue|
  {
    hide Step, RunN, Returns, After, SerialReturns, SerialMemory, AtEntries, OrderOf;
    var c := RunN(s, n0);
    SerialUnfold(s.progs, c.cur, c.queue, c.mem);
    OthersAtEntries(s, c.regs, c.regs, c.cur, c.queue);
    n := ThreadRunsAlone(s, n0);
    var c1 := RunN(s, n);
    OthersAtEntries(s, c.regs, c1.regs, c.cur, c.queue);
    if c.queue == [] {
      SerialOfNone(s.progs, c1.mem);
    } else {
      assert [c1.cur] + c1.queue == c.queue;
      OthersAtEntries(s, c1.regs, c1.regs, c1.cur, c1.queue);
      n := QueueRunsSerially(s, n);
    }
  }

  lemma SerialOfNone<L>(progs: seq<Program<L>>, mem: Memory)
    ensures OrderOf([]) == [] && SerialMemory(progs, [], mem) == mem
  {
  }

  /** The order in which threads run when the first is t and no switch happens. */
  function UninterruptedOrder(n: nat, t: nat): seq<int>
    requires 1 <= t <= n
  {
    assert ResetQueue(n)[n - t] == t;
    OrderOf([t] + Rotated(ResetQueue(n), t))
  }

  lemma UninterruptedQueue(n: nat, t: nat)
    requires 1 <= t <= n
    ensures t in ResetQueue(n)
    ensures var r := [t] + Rotated(ResetQueue(n), t); Distinct(r) && forall u :: u in r <==> 1 <= u <= n
  {
    var q := ResetQueue(n);
    assert q[n - t] == t;
    RotatedKeeps(q, t);
    hide Rotated;
    forall u | 1 <= u <= n
      ensures u in q
    {
      assert q[n - u] == u;
    }
  }

  lemma OrderOfEntries(r: seq<nat>, n: nat)
    requires Distinct(r) && forall u :: u in r <==> 1 <= u <= n
    ensures Distinct(OrderOf(r)) && forall x :: x in OrderOf(r) <==> 0 <= x < n
    ensures |r| == n
  {
    var order := OrderOf(r);
    forall x | 0 <= x < n
      ensures x in order
    {
      assert x + 1 in r;
      var i :| 0 <= i < |r| && r[i] == x + 1;
      assert order[i] == x;
    }
    forall x | x in order
      ensures 0 <= x < n
    {
      var i :| 0 <= i < |order| && order[i] == x;
      assert r[i] in r;
    }
    IotaDistinct(n);
    SameDistinctEntries(order, Iota(n));
    assert |multiset(order)| == |order| && |multiset(Iota(n))| == n;
  }

  lemma UninterruptedOrderIsSerial(n: nat, t: nat)
    requires 1 <= t <= n
    ensures IsSerialOrder(UninterruptedOrder(n, t), n)
  {
    hide Rotated, Distinct;
    UninterruptedQueue(n, t);
    var r := [t] + Rotated(ResetQueue(n), t);
    OrderOfEntries(r, n);
    IotaDistinct(n);
    SameDistinctEntries(OrderOf(r), Iota(n));
  }

  lemma IotaDistinct(n: nat)
    ensures Distinct(Iota(n)) && forall x :: x in Iota(n) <==> 0 <= x < n
  {
    forall x | 0 <= x < n
      ensures x in Iota(n)
    {
      assert Iota(n)[x] == x;
    }
  }

  lemma {:induction false} DistinctCounts(a: seq<int>)
    requires Distinct(a)
    ensures forall x :: multiset(a)[x] == if x in a then 1 else 0
  {
    if a != [] {
      var init, last := a[..|a| - 1], a[|a| - 1];
      DistinctCounts(init);
      assert a == init + [last];
      assert last !in init;
    }
  }

  lemma SameDistinctEntries(a: seq<int>, b: seq<int>)
    requires Distinct(a) && Distinct(b) && forall x :: x in a <==> x in b
    ensures multiset(a) == multiset(b)
  {
    DistinctCounts(a);
    DistinctCounts(b);
    assert forall x :: multiset(a)[x] == multiset(b)[x];
  }

  /** A schedule without switches runs all threads serially. */
  lemma NoSwitchesIsSerial<L>(s: Setup<L>)
    requires ValidSetup(s) && s.counts == []
    requires SerialReturns(s.progs, UninterruptedOrder(s.N(), s.tids[0]), s.init)
    ensures Finishes(s) && Final(s).ctxSwitch == 0 && !Final(s).yielded
    ensures Final(s).mem == SerialMemory(s.progs, UninterruptedOrder(s.N(), s.tids[0]), s.init)
  {
    hide Step, SerialReturns, SerialMemory, Rotated, IndexOf, Inv;
    UninterruptedQueue(s.N(), s.tids[0]);
    var q := [s.tids[0]] + Rotated(ResetQueue(s.N()), s.tids[0]);
    assert forall i :: 0 <= i < |q| ==> q[i] in q;
    RunStep(s, 0);
    FirstStep(s);
    var n := QueueRunsSerially(s, 1);
    FinalUnique(s, n);
  }

  lemma FirstStep<L>(s: Setup<L>)
    requires Start(s).mode == Running
    ensures Step(s, Start(s)) == Start(s).(event := Resume)
  {
  }
}
