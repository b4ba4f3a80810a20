/** A pair of functions on which the loop of `run_interleavings` does not end, although each of its schedules does:
    one waits for a shared byte to be set, the other sets it. */
module Spinner {
  import opened Words
  import opened TidOdometer
  import opened Machine
  import opened Permutations
  import opened Interleaver
  import opened SerialRuns
  import opened TouchBounds
  import opened SweepEnds

  const FLAG: Word := 0

  function Cleared(): Memory {
    a => 0
  }

  function Store(mem: Memory): Memory {
    a => if a == FLAG then 1 else mem(a)
  }

  /** Register 0: still waiting; 1: about to exit. */
  function Wait(reg: nat, mem: Memory): Op<nat> {
    if reg != 0 then Exit else Exec(if mem(FLAG) == 0 then 0 else 1, mem, {FLAG})
  }

  /** Register 0: about to store; 1: about to exit. */
  function Set(reg: nat, mem: Memory): Op<nat> {
    if reg != 0 then Exit else Exec(1, Store(mem), {FLAG})
  }

  function WaitAndSet(): Problem<nat> {
    Problem([Program(0, Wait), Program(0, Set)], Cleared(), {FLAG})
  }

  function OneSwitch(first: nat, count: nat): Setup<nat> {
    SetupOf(WaitAndSet(), (if first == 1 then [1, 2] else [2, 1], [count]))
  }

  /** Both functions touch the shared byte, and registers are updated in place. */
  lemma Touched(s: Setup<nat>, regs: seq<nat>, i: nat)
    requires s.shared == {FLAG} && |regs| == 2 && i < 2
    ensures s.shared * {FLAG} != {}
    ensures forall v :: regs[i := v] == if i == 0 then [v, regs[1]] else [regs[0], v]
  {
    assert FLAG in s.shared * {FLAG};
  }

  // ---- the waiting function goes first ----

  /** j touches made, none of which saw the flag set. */
  ghost predicate Waiting(c: Config<nat>, j: nat) {
    c == Config(Cleared(), [0, 0], [2], 1, true, 0, j, false, false, Resume, Running, {}, c.log)
  }

  lemma StartsWaiting(count: nat)
    ensures Waiting(RunN(OneSwitch(1, count), 1), 0)
  {
    var s := OneSwitch(1, count);
    RunStep(s, 0);
    assert ResetQueue(2) == [2, 1] && [2, 1][0] == 2 && [2, 1][1] == 1 && [2, 1][1..] == [1];
    assert IndexOf([2, 1], 1) == 1 && Rotated([2, 1], 1) == [2];
    assert Entries(s.progs) == [0, 0];
  }

  lemma WaitsOn(count: nat, c: Config<nat>, j: nat)
    requires Waiting(c, j) && j + 1 < count
    ensures var s := OneSwitch(1, count); Waiting(Step(s, Step(s, c)), j + 1)
  {
    hide Rotated, Waiting;
    var s := OneSwitch(1, count);
    WaitingIs(c, j);
    Touched(s, c.regs, c.cur - 1);
    var c1 := Step(s, c);
    assert c1 == c.(doCount := true, event := Boundary, log := c1.log);
    IsWaiting(Step(s, c1), j + 1);
  }

  lemma WaitingIs(c: Config<nat>, j: nat)
    requires Waiting(c, j)
    ensures c == Config(Cleared(), [0, 0], [2], 1, true, 0, j, false, false, Resume, Running, {}, c.log)
  {
  }

  lemma IsWaiting(c: Config<nat>, j: nat)
    requires c == Config(Cleared(), [0, 0], [2], 1, true, 0, j, false, false, Resume, Running, {}, c.log)
    ensures Waiting(c, j)
  {
  }

  lemma {:induction false} Waits(count: nat, j: nat)
    requires j < count
    ensures Waiting(RunN(OneSwitch(1, count), 1 + 2 * j), j)
  {
    hide RunN, Step, Waiting;
    var s := OneSwitch(1, count);
    if j == 0 {
      StartsWaiting(count);
    } else {
      Waits(count, j - 1);
      RunStep(s, 2 * j - 1);
      RunStep(s, 2 * j);
      WaitsOn(count, RunN(s, 2 * j - 1), j - 1);
    }
  }

  /** The count is reached, and the setting function runs. */
  lemma SwitchesToSet(count: nat, c: Config<nat>)
    requires count >= 1 && Waiting(c, count - 1)
    ensures var s := OneSwitch(1, count); var c' := Step(s, Step(s, c));
      c' == Config(Cleared(), [0, 0], [1], 2, true, 1, 0, false, false, Resume, Running, {}, c'.log)
  {
    var s := OneSwitch(1, count);
    Touched(s, c.regs, c.cur - 1);
    var c1 := Step(s, c);
    assert c1 == c.(doCount := true, event := Boundary, log := c1.log);
    assert Rotated([2], 2) == [];
  }

  lemma Sets(count: nat, c: Config<nat>)
    requires c == Config(Cleared(), [0, 0], [1], 2, true, 1, 0, false, false, Resume, Running, {}, c.log)
    ensures var s := OneSwitch(1, count); var c' := Step(s, Step(s, Step(s, c)));
      c' == Config(Store(Cleared()), [0, 1], [], 1, false, 1, 0, false, false, Resume, Running, {2}, c'.log)
  {
    hide Rotated;
    var s := OneSwitch(1, count);
    Touched(s, c.regs, c.cur - 1);
    var c1 := Step(s, c);
    assert c1 == c.(mem := Store(Cleared()), regs := [0, 1], event := Boundary, log := c1.log);
    var c2 := Step(s, c1);
    assert c2 == c1.(event := Resume);
  }

  /** The flag is set: the waiting function sees it and exits. */
  lemma SeesFlag(s: Setup<nat>, c: Config<nat>, f: set<nat>)
    requires s.progs == WaitAndSet().progs && s.shared == {FLAG} && |s.counts| == 1
    requires c == Config(Store(Cleared()), [0, 1], [], 1, false, c.ctxSwitch, c.instrCount, false, false,
                         Resume, Running, f, c.log)
    ensures var c' := Step(s, Step(s, Step(s, c))); c'.mode == Done && c'.ctxSwitch == c.ctxSwitch
  {
    hide Rotated;
    Touched(s, c.regs, c.cur - 1);
    var c1 := Step(s, c);
    assert c1 == c.(regs := [1, 1], event := Boundary, log := c1.log);
    var c2 := Step(s, c1);
    assert c2 == c1.(event := Resume);
  }

  /** However many times the waiting function is to look, the schedule finishes and completes its switch. */
  lemma WaitFirstCompletes(count: nat)
    requires count >= 1
    ensures Finishes(OneSwitch(1, count)) && Final(OneSwitch(1, count)).ctxSwitch == 1
  {
    hide RunN, Step, Waiting;
    var s := OneSwitch(1, count);
    var n := 1 + 2 * (count - 1);
    Waits(count, count - 1);
    RunStep(s, n);
    RunStep(s, n + 1);
    SwitchesToSet(count, RunN(s, n));
    RunStep(s, n + 2);
    RunStep(s, n + 3);
    RunStep(s, n + 4);
    Sets(count, RunN(s, n + 2));
    RunStep(s, n + 5);
    RunStep(s, n + 6);
    RunStep(s, n + 7);
    SeesFlag(s, RunN(s, n + 5), {2});
    FinalUnique(s, n + 8);
  }

  // ---- the setting function goes first ----

  lemma StartsSetting(count: nat)
    ensures var c := RunN(OneSwitch(2, count), 1);
      c == Config(Cleared(), [0, 0], [1], 2, true, 0, 0, false, false, Resume, Running, {}, [])
  {
    var s := OneSwitch(2, count);
    RunStep(s, 0);
    assert ResetQueue(2) == [2, 1] && Rotated([2, 1], 2) == [1];
    assert Entries(s.progs) == [0, 0];
  }

  lemma SetFirst(count: nat, c: Config<nat>)
    requires count >= 1 && c == Config(Cleared(), [0, 0], [1], 2, true, 0, 0, false, false, Resume, Running, {}, [])
    ensures var s := OneSwitch(2, count); var c' := Step(s, Step(s, c));
      c' == (if count == 1
             then Config(Store(Cleared()), [0, 1], [2], 1, true, 1, 0, false, false, Resume, Running, {}, c'.log)
             else Config(Store(Cleared()), [0, 1], [1], 2, true, 0, 1, false, false, Resume, Running, {}, c'.log))
  {
    var s := OneSwitch(2, count);
    Touched(s, c.regs, c.cur - 1);
    var c1 := Step(s, c);
    assert c1 == c.(mem := Store(Cleared()), regs := [0, 1], doCount := true, event := Boundary, log := c1.log);
    assert Rotated([1], 1) == [];
  }

  /** Asked to touch more than once, the setting function exits early and the waiting one runs on. */
  lemma SetExits(count: nat, c: Config<nat>)
    requires c == Config(Store(Cleared()), [0, 1], [1], 2, true, 0, 1, false, false, Resume, Running, {}, c.log)
    ensures var c' := Step(OneSwitch(2, count), c);
      c' == Config(Store(Cleared()), [0, 1], [], 1, false, 0, 1, false, false, Resume, Running, {2}, c'.log)
  {
    hide Rotated;
  }

  /** Switched to after the store, the waiting function exits, and then the setting one. */
  lemma BothExit(c: Config<nat>)
    requires c == Config(Store(Cleared()), [0, 1], [2], 1, true, 1, 0, false, false, Resume, Running, {}, c.log)
    ensures var s := OneSwitch(2, 1); Step(s, Step(s, Step(s, Step(s, c)))).mode == Done
  {
    hide Rotated;
    var s := OneSwitch(2, 1);
    Touched(s, c.regs, c.cur - 1);
    var c1 := Step(s, c);
    assert c1 == c.(regs := [1, 1], event := Boundary, log := c1.log);
    var c2 := Step(s, c1);
    assert c2 == c1.(event := Resume);
  }

  lemma SetFirstFinishes(count: nat)
    requires count >= 1
    ensures Finishes(OneSwitch(2, count))
  {
    hide RunN, Step;
    var s := OneSwitch(2, count);
    StartsSetting(count);
    SetFirst(count, RunN(s, 1));
    RunStep(s, 1);
    RunStep(s, 2);
    RunStep(s, 3);
    RunStep(s, 4);
    RunStep(s, 5);
    RunStep(s, 6);
    if count == 1 {
      BothExit(RunN(s, 3));
      FinalUnique(s, 7);
    } else {
      SetExits(count, RunN(s, 3));
      SeesFlag(s, RunN(s, 4), {2});
      FinalUnique(s, 7);
    }
  }

  // ---- the sweep ----

  /** Every schedule of one switch finishes, and yet the loop over them does not: its counts have no bound. */
  lemma SweepNeverEnds()
    ensures forall x :: IsSchedule(WaitAndSet(), 1, x) ==> Finishes(SetupOf(WaitAndSet(), x))
    ensures !SweepIsFinite(WaitAndSet(), 1)
  {
    hide Finishes, SweepIsFinite, Wait, Set;
    var p := WaitAndSet();
    forall x | IsSchedule(p, 1, x)
      ensures Finishes(SetupOf(p, x))
    {
      assert x.0[0] != x.0[0 + 1];
      assert x.1 == [x.1[0]] && x.0 == if x.0[0] == 1 then [1, 2] else [2, 1];
      if x.0[0] == 1 {
        WaitFirstCompletes(x.1[0]);
      } else {
        SetFirstFinishes(x.1[0]);
      }
    }
    SweepEndsExactly(p, 1);
    forall top: nat
      ensures !Tame(p, 1, top)
    {
      CountsUnbounded(top);
    }
  }

  lemma CountsUnbounded(top: nat)
    ensures !Tame(WaitAndSet(), 1, top)
  {
    hide Finishes, Wait, Set, Touches;
    var x := ([1, 2], [top + 1]);
    assert SetupOf(WaitAndSet(), x) == OneSwitch(1, top + 1);
    WaitFirstCompletes(top + 1);
    RunRealisesSchedule(OneSwitch(1, top + 1), 0);
    assert IsSchedule(WaitAndSet(), 1, x);
  }

  /** The checker does not get as far as that loop: the serial execution in which the waiting function goes first hangs. */
  lemma SerialNeverReturns()
    ensures !AllSerialReturn(WaitAndSet())
  {
    var p := WaitAndSet();
    forall n: nat
      ensures !SoloN(p.progs[0], p.init, n).Returned?
    {
      WaitsAlone(n);
    }
    assert !Returns(p.progs[0], p.init);
    assert Iota(2) == [0, 1];
    assert IsSerialOrder([0, 1], 2) && !SerialReturns(p.progs, [0, 1], p.init);
  }

  lemma {:induction false} WaitsAlone(n: nat)
    ensures SoloN(Program(0, Wait), Cleared(), n) == At(0, Cleared())
  {
    if n > 0 {
      WaitsAlone(n - 1);
    }
  }
}
