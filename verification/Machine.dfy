/** equiv-threads.c on values: threads, the run queue, the context-switch status and what each trap does to them. */
module Machine {
  import opened Sequences
  import opened Words

  /** What a thread does when the processor resumes it. */
  datatype Op<L> =
    | Exec(next: L, mem: Memory, touched: set<Word>)  // one ordinary instruction
    | Putc(next: L)
    | Yield(next: L)
    | Exit

  /** A deterministic thread: where it starts, and its next operation given its registers and the memory. */
  datatype Program<!L> = Program(entry: L, step: (L, Memory) -> Op<L>)

  /** Everything that stays fixed during a run. Thread i + 1 runs progs[i]. */
  datatype Setup<!L> = Setup(progs: seq<Program<L>>, init: Memory, shared: set<Word>, tids: seq<nat>, counts: seq<nat>)
  {
    function N(): nat { |progs| }
  }

  datatype Event = Boundary | Resume
  datatype Mode = Running | Done | Crashed

  /** An executed instruction: by whom, in which segment, and whether it touched shared memory. */
  datatype Entry = Entry(tid: nat, segment: nat, touch: bool)

  datatype Config<L> = Config(
    mem: Memory,
    regs: seq<L>,
    queue: seq<nat>,
    cur: nat,
    active: bool,       // the schedule pointer is not NULL
    ctxSwitch: nat,
    instrCount: nat,
    doCount: bool,
    yielded: bool,
    event: Event,       // the trap that comes next: an instruction boundary, or none before the instruction
    mode: Mode,
    finished: set<nat>, // history: threads that exited
    log: seq<Entry>     // history: instructions executed
  )

  // ---- the run queue ----

  function IndexOf(q: seq<nat>, t: nat): (i: nat)
    requires t in q
    ensures i < |q| && q[i] == t
  {
    if q[0] == t then 0 else 1 + IndexOf(q[1..], t)
  }

  /** The queue once `retrieve_tid_from_queue(t)` has found t: everything popped before t went to the back. */
  function Rotated(q: seq<nat>, t: nat): seq<nat>
    requires t in q
  {
    q[IndexOf(q, t) + 1..] + q[..IndexOf(q, t)]
  }

  /** r holds the others of q, in cyclic order beginning after t. */
  ghost predicate CyclicAfter(q: seq<nat>, t: nat, r: seq<nat>) {
    exists i: nat :: i < |q| && q[i] == t && FollowsFrom(q, i, r)
  }

  ghost predicate FollowsFrom(q: seq<nat>, i: nat, r: seq<nat>)
    requires i < |q|
  {
    |r| == |q| - 1 && forall k :: 0 <= k < |r| ==> r[k] == q[if i + 1 + k < |q| then i + 1 + k else i + 1 + k - |q|]
  }

  lemma RotatedIsCyclic(q: seq<nat>, t: nat)
    requires t in q
    ensures CyclicAfter(q, t, Rotated(q, t))
  {
    assert FollowsFrom(q, IndexOf(q, t), Rotated(q, t));
  }

  /** `reset_threads`: each thread is pushed on the front in turn. */
  function ResetQueue(n: nat): (q: seq<nat>)
    ensures |q| == n && forall i :: 0 <= i < n ==> q[i] == n - i
  {
    seq(n, i requires 0 <= i < n => n - i)
  }

  // ---- the traps ----

  /** `equiv_hash_handler`: the prefetch abort before an instruction. */
  function StepHandler<L>(s: Setup<L>, c: Config<L>): Config<L> {
    if !c.doCount then c.(event := Resume)
    else if !c.active || c.ctxSwitch >= |s.counts| then c.(mode := Crashed)
    else if c.instrCount + 1 < s.counts[c.ctxSwitch] then
      c.(doCount := false, instrCount := c.instrCount + 1, event := Resume)
    else if c.ctxSwitch + 1 >= |s.tids| || s.tids[c.ctxSwitch + 1] !in c.queue then c.(mode := Crashed)
    else
      var t := s.tids[c.ctxSwitch + 1];
      c.(doCount := false, instrCount := 0, ctxSwitch := c.ctxSwitch + 1,
         queue := Rotated(c.queue, t) + [c.cur], cur := t, event := Resume)
  }

  /** `ctx_switch_handler`: the data abort of an instruction that touches `touched`. */
  function TouchHandler<L>(s: Setup<L>, c: Config<L>, touched: set<Word>): Config<L> {
    if !c.active then c
    else if c.ctxSwitch >= |s.counts| then c
    else if s.shared * touched != {} then c.(doCount := true)
    else c
  }

  function SaveRegs<L>(c: Config<L>, l: L): Config<L>
    requires 1 <= c.cur <= |c.regs|
  {
    c.(regs := c.regs[c.cur - 1 := l])
  }

  lemma Saved<L>(c: Config<L>, l: L)
    requires 1 <= c.cur <= |c.regs|
    ensures SaveRegs(c, l) == c.(regs := c.regs[c.cur - 1 := l])
  {
  }

  /** The instruction itself, with the data abort it causes or the system call it makes. */
  function Execute<L>(s: Setup<L>, c: Config<L>): Config<L> {
    if !(1 <= c.cur <= |c.regs| == s.N()) then c.(mode := Crashed) else
    match s.progs[c.cur - 1].step(c.regs[c.cur - 1], c.mem)
    case Exec(l, m, touched) =>
      SaveRegs(TouchHandler(s, c, touched), l).(mem := m, event := Boundary,
        log := c.log + [Entry(c.cur, c.ctxSwitch, s.shared * touched != {})])
    case Putc(l) =>
      if c.active && c.ctxSwitch < |s.counts| then c.(mode := Crashed)  // panic("BAD")
      else if c.queue == [] then SaveRegs(c, l).(event := Resume)
      else SaveRegs(c, l).(queue := c.queue[1..] + [c.cur], cur := c.queue[0], event := Resume)
    case Yield(l) =>
      var q := c.queue + [c.cur];
      SaveRegs(c, l).(active := false, yielded := true, queue := q[1..], cur := q[0], event := Resume)
    case Exit =>
      var c1 := c.(active := false, finished := c.finished + {c.cur}, event := Resume);
      if c.queue == [] then c1.(mode := Done)
      else c1.(queue := c.queue[1..], cur := c.queue[0])
  }

  lemma ExecuteExec<L>(s: Setup<L>, c: Config<L>, l: L, m: Memory, touched: set<Word>)
    requires 1 <= c.cur <= |c.regs| == s.N() && s.progs[c.cur - 1].step(c.regs[c.cur - 1], c.mem) == Exec(l, m, touched)
    ensures var c1 := TouchHandler(s, c, touched);
      && 1 <= c1.cur <= |c1.regs|
      && Execute(s, c) == c1.(regs := c1.regs[c1.cur - 1 := l], mem := m, event := Boundary,
                              log := c.log + [Entry(c.cur, c.ctxSwitch, s.shared * touched != {})])
  {
  }

  lemma ExecuteYield<L>(s: Setup<L>, c: Config<L>, l: L)
    requires 1 <= c.cur <= |c.regs| == s.N() && s.progs[c.cur - 1].step(c.regs[c.cur - 1], c.mem) == Op.Yield(l)
    ensures var q := c.queue + [c.cur];
      Execute(s, c) == c.(regs := c.regs[c.cur - 1 := l], active := false, yielded := true, queue := q[1..], cur := q[0],
                          event := Resume)
  {
  }

  function Step<L>(s: Setup<L>, c: Config<L>): Config<L> {
    if c.mode != Running then c
    else if c.event == Boundary then StepHandler(s, c)
    else Execute(s, c)
  }

  /** Each thread's registers on entry. */
  function Entries<L>(progs: seq<Program<L>>): (r: seq<L>)
    ensures |r| == |progs| && forall i :: 0 <= i < |r| ==> r[i] == progs[i].entry
  {
    seq(|progs|, i requires 0 <= i < |progs| => progs[i].entry)
  }

  /** Memory initialised, threads reset, schedule installed; no current thread yet. */
  function Initial<L>(s: Setup<L>): Config<L> {
    Config(s.init, Entries(s.progs), ResetQueue(s.N()), 0, true, 0, 0, false, false, Boundary, Running, {}, [])
  }

  /** `equiv_run` up to the first trap: fetch the first scheduled thread from the freshly filled queue. */
  function Start<L>(s: Setup<L>): Config<L> {
    var c := Initial(s);
    if s.tids == [] || s.tids[0] !in c.queue then c.(mode := Crashed)
    else c.(queue := Rotated(c.queue, s.tids[0]), cur := s.tids[0])
  }

  function RunN<L>(s: Setup<L>, n: nat): Config<L> {
    if n == 0 then Start(s) else Step(s, RunN(s, n - 1))
  }

  // ---- the invariant of every run ----

  ghost predicate ValidSetup<L>(s: Setup<L>) {
    && |s.tids| == |s.counts| + 1
    && (forall i :: 0 <= i < |s.tids| ==> 1 <= s.tids[i] <= s.N())
    && (forall i :: 0 <= i < |s.tids| - 1 ==> s.tids[i] != s.tids[i + 1])
    && (forall i :: 0 <= i < |s.counts| ==> s.counts[i] >= 1)
  }

  function Touches(log: seq<Entry>, segment: nat): nat {
    if log == [] then 0 else
    var e := log[|log| - 1];
    Touches(log[..|log| - 1], segment) + if e.segment == segment && e.touch then 1 else 0
  }

  /** Current, queued and exited threads partition the thread set. */
  ghost predicate Partition(n: nat, queue: seq<nat>, cur: nat, finished: set<nat>, done: bool) {
    && Distinct(queue)
    && (forall t :: t in queue ==> 1 <= t <= n && t !in finished && t != cur)
    && 1 <= cur <= n && (cur in finished <==> done)
    && (forall t :: 1 <= t <= n ==> t in queue || t == cur || t in finished)
    && (forall t :: t in finished ==> 1 <= t <= n)
  }

  ghost predicate StatusInv<L>(s: Setup<L>, c: Config<L>)
    requires |s.counts| < |s.tids|
  {
    && c.ctxSwitch <= |s.counts|
    && (c.mode == Done ==> c.queue == [])
    && (c.active ==> c.mode == Running)
    && (c.active <==> c.finished == {} && !c.yielded)
    && (c.active && c.ctxSwitch < |s.counts| ==> c.cur == s.tids[c.ctxSwitch])
    && (c.doCount ==> c.active && c.ctxSwitch < |s.counts| && c.event == Boundary)
    && (c.active && c.ctxSwitch < |s.counts| ==> c.instrCount < s.counts[c.ctxSwitch])
  }

  /** Segments appear in order; completed ones ran their own thread and exactly their number of touches. */
  ghost predicate LogInv<L>(s: Setup<L>, c: Config<L>)
    requires c.ctxSwitch <= |s.counts| < |s.tids|
  {
    && (forall e :: e in c.log ==> e.segment <= c.ctxSwitch)
    && (forall e :: e in c.log && (e.segment < c.ctxSwitch || (c.active && c.ctxSwitch < |s.counts|)) ==> e.tid == s.tids[e.segment])
    && (forall i, j :: 0 <= i < j < |c.log| ==> c.log[i].segment <= c.log[j].segment)
    && (forall j :: 0 <= j < c.ctxSwitch ==> Touches(c.log, j) == s.counts[j])
    && (forall j :: j > c.ctxSwitch ==> Touches(c.log, j) == 0)
    && (c.active && c.ctxSwitch < |s.counts| ==>
          Touches(c.log, c.ctxSwitch) == c.instrCount + (if c.doCount then 1 else 0))
  }

  ghost predicate Inv<L>(s: Setup<L>, c: Config<L>) {
    && |c.regs| == s.N()
    && Partition(s.N(), c.queue, c.cur, c.finished, c.mode == Done)
    && |s.tids| == |s.counts| + 1
    && StatusInv(s, c)
    && LogInv(s, c)
  }

  lemma {:induction false} IndexOfAt(q: seq<nat>, t: nat, i: nat)
    requires Distinct(q) && i < |q| && q[i] == t
    ensures IndexOf(q, t) == i
  {
    if q[0] != t {
      assert q[1..][i - 1] == t;
      IndexOfAt(q[1..], t, i - 1);
    }
  }

  lemma RotatedKeeps(q: seq<nat>, t: nat)
    requires t in q && Distinct(q)
    ensures Distinct(Rotated(q, t)) && t !in Rotated(q, t)
    ensures forall u :: u in Rotated(q, t) <==> u in q && u != t
    ensures |Rotated(q, t)| == |q| - 1
  {
    var i := IndexOf(q, t);
    var r := Rotated(q, t);
    assert q == q[..i] + [t] + q[i + 1..];
    forall a, b | 0 <= a < b < |r|
      ensures r[a] != r[b]
    {
      assert r[a] == if a < |q| - i - 1 then q[i + 1 + a] else q[a - (|q| - i - 1)];
      assert r[b] == if b < |q| - i - 1 then q[i + 1 + b] else q[b - (|q| - i - 1)];
    }
  }

  lemma StartInv<L>(s: Setup<L>)
    requires ValidSetup(s)
    ensures Inv(s, Start(s)) && Start(s).mode == Running
  {
    var q := ResetQueue(s.N());
    assert q[s.N() - s.tids[0]] == s.tids[0];
    RotatedKeeps(q, s.tids[0]);
    forall t | 1 <= t <= s.N()
      ensures t in q
    {
      assert q[s.N() - t] == t;
    }
  }

  /** The next thread of the schedule is waiting in the queue, and the current one takes its place at the end. */
  lemma SwitchKeepsPartition(n: nat, queue: seq<nat>, cur: nat, finished: set<nat>, t: nat)
    requires Partition(n, queue, cur, finished, false) && finished == {} && 1 <= t <= n && t != cur
    ensures t in queue && Partition(n, Rotated(queue, t) + [cur], t, finished, false)
  {
    hide Rotated;
    assert t in queue;
    RotatedKeeps(queue, t);
  }

  /** When the count is reached, the segment has exactly its number of touches. */
  lemma SwitchKeepsHistory<L>(s: Setup<L>, c: Config<L>, c': Config<L>)
    requires c.ctxSwitch < |s.counts| < |s.tids| && LogInv(s, c) && c.active && c.doCount
    requires c.instrCount + 1 == s.counts[c.ctxSwitch]
    requires c'.log == c.log && c'.active == c.active && c'.ctxSwitch == c.ctxSwitch + 1 && c'.instrCount == 0 && !c'.doCount
    ensures LogInv(s, c')
  {
    assert Touches(c.log, c.ctxSwitch) == s.counts[c.ctxSwitch];
  }

  /** An instruction boundary where the count is reached. */
  lemma SwitchInv<L>(s: Setup<L>, c: Config<L>)
    requires ValidSetup(s) && Inv(s, c) && c.mode == Running && c.event == Boundary
    requires c.ctxSwitch < |s.counts| && c.doCount && c.instrCount + 1 >= s.counts[c.ctxSwitch]
    ensures Inv(s, StepHandler(s, c)) && StepHandler(s, c).mode == Running
  {
    hide Partition, LogInv, Rotated;
    SwitchKeepsPartition(s.N(), c.queue, c.cur, c.finished, s.tids[c.ctxSwitch + 1]);
    SwitchKeepsHistory(s, c, StepHandler(s, c));
  }

  /** An instruction boundary where it is not. */
  lemma NoSwitchInv<L>(s: Setup<L>, c: Config<L>)
    requires ValidSetup(s) && Inv(s, c) && c.mode == Running && c.event == Boundary
    requires c.doCount ==> c.ctxSwitch < |s.counts| && c.instrCount + 1 < s.counts[c.ctxSwitch]
    ensures Inv(s, StepHandler(s, c)) && StepHandler(s, c).mode == Running
  {
    hide Partition, Rotated;
  }

  lemma StepHandlerInv<L>(s: Setup<L>, c: Config<L>)
    requires ValidSetup(s) && Inv(s, c) && c.mode == Running && c.event == Boundary
    ensures Inv(s, StepHandler(s, c)) && StepHandler(s, c).mode == Running
  {
    hide Partition, LogInv, StepHandler;
    if c.doCount && c.instrCount + 1 >= s.counts[c.ctxSwitch] {
      SwitchInv(s, c);
    } else {
      NoSwitchInv(s, c);
    }
  }

  lemma Uncons(q: seq<nat>)
    requires Distinct(q) && q != []
    ensures Distinct(q[1..]) && forall t :: t in q[1..] <==> t in q && t != q[0]
  {
    forall t | t in q[1..]
      ensures t != q[0]
    {
      var i :| 0 <= i < |q| - 1 && q[1..][i] == t;
      assert q[i + 1] == t;
    }
    assert q == [q[0]] + q[1..];
  }

  /** The current thread goes to the back of the queue and the front one runs. */
  lemma PartitionRotate(n: nat, q: seq<nat>, cur: nat, finished: set<nat>)
    requires Partition(n, q, cur, finished, false)
    ensures var r := q + [cur]; Partition(n, r[1..], r[0], finished, false)
    ensures q != [] ==> (q + [cur])[1..] == q[1..] + [cur]
  {
    var r := q + [cur];
    assert Distinct(r);
    assert forall t :: t in r <==> t in q || t == cur;
    assert r[0] in r;
    Uncons(r);
  }

  lemma PartitionExit(n: nat, q: seq<nat>, cur: nat, finished: set<nat>)
    requires Partition(n, q, cur, finished, false)
    ensures q == [] ==> Partition(n, q, cur, finished + {cur}, true)
    ensures q != [] ==> Partition(n, q[1..], q[0], finished + {cur}, false)
  {
    if q != [] {
      assert q[0] in q;
      Uncons(q);
    }
  }

  lemma ExecuteKeepsPartition<L>(s: Setup<L>, c: Config<L>)
    requires ValidSetup(s) && Inv(s, c) && c.mode == Running && c.event == Resume
    ensures var c' := Execute(s, c);
      c'.mode != Crashed ==> |c'.regs| == s.N() && Partition(s.N(), c'.queue, c'.cur, c'.finished, c'.mode == Done)
  {
    PartitionRotate(s.N(), c.queue, c.cur, c.finished);
    PartitionExit(s.N(), c.queue, c.cur, c.finished);
    hide Distinct, LogInv;
    assert c.queue != [] ==> (c.queue + [c.cur])[0] == c.queue[0];
  }

  lemma ExecuteKeepsStatus<L>(s: Setup<L>, c: Config<L>)
    requires ValidSetup(s) && Inv(s, c) && c.mode == Running && c.event == Resume
    ensures Execute(s, c).mode != Crashed ==> StatusInv(s, Execute(s, c))
  {
    hide Distinct, LogInv;
  }

  lemma ExecuteInv<L>(s: Setup<L>, c: Config<L>)
    requires ValidSetup(s) && Inv(s, c) && c.mode == Running && c.event == Resume
    ensures Execute(s, c).mode != Crashed ==> Inv(s, Execute(s, c))
  {
    hide Partition, LogInv, Execute;
    ExecuteKeepsPartition(s, c);
    ExecuteKeepsStatus(s, c);
    ExecuteKeepsHistory(s, c);
  }

  lemma ExecuteSameSegment<L>(s: Setup<L>, c: Config<L>)
    requires 1 <= c.cur <= |c.regs| == s.N()
    ensures var c' := Execute(s, c);
      && c'.ctxSwitch == c.ctxSwitch
      && (!s.progs[c.cur - 1].step(c.regs[c.cur - 1], c.mem).Exec? ==>
            c'.log == c.log && c'.instrCount == c.instrCount && c'.doCount == c.doCount && (c'.active ==> c.active))
  {
  }

  lemma ExecuteKeepsHistory<L>(s: Setup<L>, c: Config<L>)
    requires ValidSetup(s) && Inv(s, c) && c.mode == Running && c.event == Resume
    ensures var c' := Execute(s, c); c'.ctxSwitch == c.ctxSwitch && LogInv(s, c')
  {
    hide Distinct, Execute, LogInv;
    ExecuteSameSegment(s, c);
    if s.progs[c.cur - 1].step(c.regs[c.cur - 1], c.mem).Exec? {
      ExecuteKeepsLog(s, c);
    } else {
      LogUnchanged(s, c, Execute(s, c));
    }
  }

  /** System calls leave the log alone. */
  lemma LogUnchanged<L>(s: Setup<L>, c: Config<L>, c': Config<L>)
    requires c.ctxSwitch <= |s.counts| < |s.tids| && LogInv(s, c)
    requires c'.log == c.log && c'.ctxSwitch == c.ctxSwitch
    requires c'.active ==> c.active && c'.instrCount == c.instrCount && c'.doCount == c.doCount
    ensures LogInv(s, c')
  {
  }

  lemma ExecuteKeepsLog<L>(s: Setup<L>, c: Config<L>)
    requires ValidSetup(s) && Inv(s, c) && c.mode == Running && c.event == Resume
    requires s.progs[c.cur - 1].step(c.regs[c.cur - 1], c.mem).Exec?
    ensures LogInv(s, Execute(s, c))
  {
    var Exec(l, m, touched) := s.progs[c.cur - 1].step(c.regs[c.cur - 1], c.mem);
    var e := Entry(c.cur, c.ctxSwitch, s.shared * touched != {});
    TouchesAppend(c.log, e);
    assert Execute(s, c).log == c.log + [e];
  }

  lemma TouchesAppend(log: seq<Entry>, e: Entry)
    ensures forall j :: Touches(log + [e], j) == Touches(log, j) + if e.segment == j && e.touch then 1 else 0
  {
    assert (log + [e])[..|log|] == log;
  }

  /** Safety of every run: the invariant holds in each configuration a run of a valid schedule passes through. */
  lemma {:induction false} ReachableInv<L>(s: Setup<L>, n: nat)
    requires ValidSetup(s)
    ensures RunN(s, n).mode != Crashed ==> Inv(s, RunN(s, n))
  {
    if n == 0 {
      StartInv(s);
    } else {
      ReachableInv(s, n - 1);
      var c := RunN(s, n - 1);
      if c.mode == Running {
        if c.event == Boundary {
          StepHandlerInv(s, c);
        } else {
          ExecuteInv(s, c);
        }
      }
    }
  }

  lemma StepCrashesByPutc<L>(s: Setup<L>, c: Config<L>)
    requires ValidSetup(s) && Inv(s, c) && c.mode != Crashed && Step(s, c).mode == Crashed
    ensures c.active && c.ctxSwitch < |s.counts| && 1 <= c.cur <= |c.regs| == |s.progs|
    ensures s.progs[c.cur - 1].step(c.regs[c.cur - 1], c.mem).Putc?
  {
    if c.event == Boundary {
      StepHandlerInv(s, c);
    }
  }

  /** The only way a run of a valid schedule goes wrong is a `putc` while switches remain (`panic("BAD")`):
      `retrieve_tid_from_queue` always finds its thread and a NULL schedule is never read. */
  lemma CrashesOnlyByPutc<L>(s: Setup<L>, n: nat)
    requires ValidSetup(s) && RunN(s, n).mode != Crashed && RunN(s, n + 1).mode == Crashed
    ensures var c := RunN(s, n);
      && c.active && c.ctxSwitch < |s.counts| && 1 <= c.cur <= |c.regs| == |s.progs|
      && s.progs[c.cur - 1].step(c.regs[c.cur - 1], c.mem).Putc?
  {
    hide Step, Inv;
    ReachableInv(s, n);
    StepCrashesByPutc(s, RunN(s, n));
  }

  /** The touch handler records the PC at `report->pcs[ctx_switch][instr_count]`, a row of `instr_counts[ctx_switch]` entries. */
  lemma RecordedPcInBounds<L>(s: Setup<L>, n: nat)
    requires ValidSetup(s) && RunN(s, n).mode != Crashed
    ensures var c := RunN(s, n);
      c.active && c.ctxSwitch < |s.counts| && c.event == Resume ==> c.instrCount < s.counts[c.ctxSwitch] && !c.doCount
  {
    ReachableInv(s, n);
  }

  // ---- finished runs ----

  ghost predicate Finishes<L>(s: Setup<L>) {
    exists n :: RunN(s, n).mode == Done
  }

  /** How many steps until all threads have exited. */
  ghost function Length<L>(s: Setup<L>): (n: nat)
    requires Finishes(s)
    ensures RunN(s, n).mode == Done
  {
    var n :| RunN(s, n).mode == Done;
    n
  }

  ghost function Final<L>(s: Setup<L>): Config<L>
    requires Finishes(s)
  {
    RunN(s, Length(s))
  }

  lemma {:induction false} DoneStays<L>(s: Setup<L>, n: nat, m: nat)
    requires n <= m && RunN(s, n).mode != Running
    ensures RunN(s, m) == RunN(s, n)
  {
    if n < m {
      DoneStays(s, n, m - 1);
    }
  }

  lemma FinalUnique<L>(s: Setup<L>, n: nat)
    requires RunN(s, n).mode == Done
    ensures Finishes(s) && RunN(s, n) == Final(s)
  {
    var m := Length(s);
    if n <= m {
      DoneStays(s, n, m);
    } else {
      DoneStays(s, m, n);
    }
  }

  /** A run reporting ctx_switch == k realises its schedule up to segment k. */
  lemma RunRealisesSchedule<L>(s: Setup<L>, i: nat)
    requires ValidSetup(s) && Finishes(s) && i < Final(s).ctxSwitch
    ensures Final(s).ctxSwitch <= |s.counts|
    ensures forall e :: e in Final(s).log && e.segment == i ==> e.tid == s.tids[i]
    ensures Touches(Final(s).log, i) == s.counts[i]
    ensures forall a, b :: 0 <= a < b < |Final(s).log| ==> Final(s).log[a].segment <= Final(s).log[b].segment
  {
    ReachableInv(s, Length(s));
  }

  lemma StepGrows<L>(s: Setup<L>, c: Config<L>)
    ensures c.ctxSwitch <= Step(s, c).ctxSwitch
    ensures c.mode == Crashed ==> Step(s, c).mode == Crashed
  {
  }

  lemma {:induction false} SwitchesGrow<L>(s: Setup<L>, n: nat, m: nat)
    requires n <= m
    ensures RunN(s, n).ctxSwitch <= RunN(s, m).ctxSwitch
    ensures RunN(s, n).mode == Crashed ==> RunN(s, m).mode == Crashed
  {
    hide Step, Start;
    if n < m {
      SwitchesGrow(s, n, m - 1);
      StepGrows(s, RunN(s, m - 1));
    }
  }

  /** s' names the same threads up to segment k and the same counts before it, and asks for no fewer in segment k. */
  ghost predicate AgreeThrough<L>(s: Setup<L>, s': Setup<L>, k: nat) {
    && s'.progs == s.progs && s'.init == s.init && s'.shared == s.shared
    && |s'.tids| == |s.tids| == |s.counts| + 1 && |s'.counts| == |s.counts| && k <= |s.counts|
    && s'.tids[..k + 1] == s.tids[..k + 1]
    && s'.counts[..k] == s.counts[..k]
    && (k < |s.counts| ==> s'.counts[k] >= s.counts[k])
  }

  lemma StepAgrees<L>(s: Setup<L>, s': Setup<L>, k: nat, c: Config<L>)
    requires AgreeThrough(s, s', k) && c.ctxSwitch <= k
    requires Step(s, c).ctxSwitch <= k && Step(s, c).mode != Crashed
    ensures Step(s', c) == Step(s, c)
  {
    if c.ctxSwitch < k {
      assert s'.counts[c.ctxSwitch] == s'.counts[..k][c.ctxSwitch] == s.counts[c.ctxSwitch];
      assert s'.tids[c.ctxSwitch + 1] == s'.tids[..k + 1][c.ctxSwitch + 1] == s.tids[c.ctxSwitch + 1];
    }
  }

  /** As long as a run stays within segments 0..k, a schedule that agrees through k runs in lockstep with it. */
  lemma {:induction false} Lockstep<L>(s: Setup<L>, s': Setup<L>, k: nat, n: nat)
    requires AgreeThrough(s, s', k) && RunN(s, n).ctxSwitch <= k && RunN(s, n).mode != Crashed
    ensures RunN(s', n) == RunN(s, n)
  {
    hide Step;
    if n == 0 {
      assert s'.tids[0] == s'.tids[..k + 1][0] == s.tids[0];
    } else {
      hide Start;
      SwitchesGrow(s, n - 1, n);
      Lockstep(s, s', k, n - 1);
      StepAgrees(s, s', k, RunN(s, n - 1));
    }
  }

  /** The reported switch count depends only on the first k + 1 threads and counts, and stays when the failing count is raised. */
  lemma PrefixDetermined<L>(s: Setup<L>, s': Setup<L>)
    requires Finishes(s) && AgreeThrough(s, s', Final(s).ctxSwitch)
    ensures Finishes(s') && Final(s') == Final(s)
  {
    var n := Length(s);
    Lockstep(s, s', Final(s).ctxSwitch, n);
    FinalUnique(s', n);
  }

  /** A run that finishes never crashes on the way, stops at its length, and leaves the queue empty. */
  lemma FinishedRunSteps<L>(s: Setup<L>, n: nat)
    requires ValidSetup(s) && Finishes(s) && n <= Length(s)
    ensures var c := RunN(s, n);
      Inv(s, c) && c.mode != Crashed && Distinct(c.queue) && 1 <= c.cur <= |c.regs| == |s.progs|
    ensures RunN(s, n).mode == Running ==> n < Length(s) && Step(s, RunN(s, n)).mode != Crashed
    ensures RunN(s, n).mode == Done ==> RunN(s, n).queue == []
  {
    hide Step, Start;
    ReachableInv(s, n);
    if RunN(s, n).mode != Running {
      DoneStays(s, n, Length(s));
    } else if n < Length(s) {
      assert RunN(s, n + 1) == Step(s, RunN(s, n));
      if RunN(s, n + 1).mode != Running {
        DoneStays(s, n + 1, Length(s));
      }
    }
  }
}
