/** equiv-threads.c: in which order the threads of a run come to their ends. */
module QueueOrder {
  import opened Sequences
  import opened Words
  import opened Machine
  import opened SerialRuns
  import opened TouchBounds

  // ---- what a switch does to the queue ----

  /** A switch puts the thread that was running at the end of the queue. The others wait in the order in which they did,
      those before the thread that is fetched now after those behind it. */
  lemma SwitchOrder<L>(s: Setup<L>, c: Config<L>)
    requires Step(s, c).ctxSwitch != c.ctxSwitch
    ensures var c' := Step(s, c); var n := |c'.queue|;
      && n > 0 && c'.queue[n - 1] == c.cur && CyclicAfter(c.queue, c'.cur, c'.queue[..n - 1])
      && c'.ctxSwitch == c.ctxSwitch + 1 && c'.ctxSwitch < |s.tids| && c'.cur == s.tids[c'.ctxSwitch]
      && c.active && c'.active && c'.mode == Running
  {
    hide Rotated, CyclicAfter;
    var t := s.tids[c.ctxSwitch + 1];
    assert t in c.queue;
    RotatedIsCyclic(c.queue, t);
    var r := Rotated(c.queue, t);
    assert (r + [c.cur])[..|r|] == r;
  }

  /** Every run begins with the first scheduled thread, and the others wait in the cyclic order of the filled queue, which
      is n, n - 1, ..., 1, beginning after it. */
  lemma StartOrder<L>(s: Setup<L>)
    requires ValidSetup(s)
    ensures var c := Start(s); var t := s.tids[0];
      && c.cur == t && |c.queue| == s.N() - 1
      && forall k :: 0 <= k < |c.queue| ==> c.queue[k] == if k < t - 1 then t - 1 - k else s.N() + t - 1 - k
  {
    var q := ResetQueue(s.N());
    assert q[s.N() - s.tids[0]] == s.tids[0];
    RotatedIsCyclic(q, s.tids[0]);
    hide Rotated;
    var i: nat :| i < |q| && q[i] == s.tids[0] && FollowsFrom(q, i, Rotated(q, s.tids[0]));
  }

  // ---- the line of threads while no switch happens ----

  /** The current thread and those behind it. */
  function Line<L>(c: Config<L>): seq<nat> {
    if c.mode == Done then [] else [c.cur] + c.queue
  }

  /** What matters to the line: the current thread leaves it, or goes to its end. */
  datatype Turn = Leave | Pass

  /** The operation that the next trap performs, if it is not an instruction boundary. */
  ghost predicate Performs<L>(s: Setup<L>, c: Config<L>) {
    c.mode == Running && c.event == Resume && 1 <= c.cur <= |c.regs| == s.N()
  }

  ghost function TurnOf<L>(s: Setup<L>, c: Config<L>): seq<Turn> {
    if !Performs(s, c) then []
    else match s.progs[c.cur - 1].step(c.regs[c.cur - 1], c.mem)
      case Exec(_, _, _) => []
      case Putc(_) => [Pass]
      case Yield(_) => [Pass]
      case Exit => [Leave]
  }

  /** The turns of steps m..n of the run. */
  ghost function Turns<L>(s: Setup<L>, m: nat, n: nat): seq<Turn> {
    if n <= m then [] else Turns(s, m, n - 1) + TurnOf(s, RunN(s, n - 1))
  }

  /** Who has exited in the first n steps, in order. */
  ghost function Exits<L>(s: Setup<L>, n: nat): seq<nat> {
    if n == 0 then []
    else Exits(s, n - 1) + if TurnOf(s, RunN(s, n - 1)) == [Leave] then [RunN(s, n - 1).cur] else []
  }

  /** A line of people: those who have left it, in order, and those who are still in it. */
  datatype Counter = Counter(left: seq<nat>, line: seq<nat>)

  function Serve(k: Counter, turn: Turn): Counter {
    if k.line == [] then k
    else if turn == Leave then Counter(k.left + [k.line[0]], k.line[1..])
    else Counter(k.left, k.line[1..] + [k.line[0]])
  }

  function Served(k: Counter, turns: seq<Turn>): Counter {
    if turns == [] then k else Serve(Served(k, turns[..|turns| - 1]), turns[|turns| - 1])
  }

  lemma ServedMore(k: Counter, turns: seq<Turn>, more: seq<Turn>)
    requires |more| <= 1
    ensures Served(k, turns + more) == if more == [] then Served(k, turns) else Serve(Served(k, turns), more[0])
  {
    if more == [] {
      assert turns + more == turns;
    } else {
      assert (turns + more)[..|turns|] == turns;
    }
  }

  /** A step that is no switch serves the line. */
  lemma LineStep<L>(s: Setup<L>, c: Config<L>, left: seq<nat>)
    requires ValidSetup(s) && Inv(s, c) && c.mode == Running
    requires Step(s, c).mode != Crashed && Step(s, c).ctxSwitch == c.ctxSwitch
    ensures var turn := TurnOf(s, c); var out := if turn == [Leave] then [c.cur] else [];
      && |turn| <= 1
      && Counter(left + out, Line(Step(s, c))) ==
         if turn == [] then Counter(left, Line(c)) else Serve(Counter(left, Line(c)), turn[0])
  {
    hide Inv, Rotated, TouchHandler, ValidSetup;
    InRange(s, c);
    var line := [c.cur] + c.queue;
    assert line[0] == c.cur && line[1..] == c.queue;
    if c.event == Resume {
      LineOfExecute(s, c);
    }
  }

  lemma InRange<L>(s: Setup<L>, c: Config<L>)
    requires Inv(s, c)
    ensures 1 <= c.cur <= |c.regs| == s.N()
    ensures |s.tids| == |s.counts| + 1 && (c.mode == Done ==> c.queue == [])
  {
  }

  lemma LineOfExecute<L>(s: Setup<L>, c: Config<L>)
    requires 1 <= c.cur <= |c.regs| == s.N() && c.mode == Running && c.event == Resume && Execute(s, c).mode != Crashed
    ensures var c' := Execute(s, c); var line := [c.cur] + c.queue;
      match s.progs[c.cur - 1].step(c.regs[c.cur - 1], c.mem)
      case Exec(_, _, _) => Line(c') == line
      case Putc(_) => Line(c') == c.queue + [c.cur]
      case Yield(_) => Line(c') == c.queue + [c.cur]
      case Exit => Line(c') == c.queue
  {
    hide TouchHandler;
    var q := c.queue + [c.cur];
    assert [q[0]] + q[1..] == q;
    if c.queue != [] {
      assert [c.queue[0]] + (c.queue[1..] + [c.cur]) == q;
      assert [c.queue[0]] + c.queue[1..] == c.queue;
    }
    TouchKeeps(s, c);
  }

  lemma TouchKeeps<L>(s: Setup<L>, c: Config<L>)
    ensures forall touched :: var c' := TouchHandler(s, c, touched);
      c'.queue == c.queue && c'.cur == c.cur && c'.mode == c.mode && c'.regs == c.regs
  {
  }

  /** From a configuration on in which no switch is left to be made, the threads are served in the order of their line:
      one that exits leaves it, one that prints or yields goes to its end. */
  lemma {:induction false} RunServes<L>(s: Setup<L>, m: nat, n: nat)
    requires ValidSetup(s) && m <= n && RunN(s, n).mode != Crashed && RunN(s, m).ctxSwitch == RunN(s, n).ctxSwitch
    ensures Counter(Exits(s, n), Line(RunN(s, n))) == Served(Counter(Exits(s, m), Line(RunN(s, m))), Turns(s, m, n))
  {
    hide RunN, Step, Inv, Line, TurnOf, Served, ValidSetup;
    if m < n {
      var c := RunN(s, n - 1);
      RunStep(s, n - 1);
      SwitchesGrow(s, m, n - 1);
      SwitchesGrow(s, n - 1, n);
      RunServes(s, m, n - 1);
      var k := Counter(Exits(s, m), Line(RunN(s, m)));
      if c.mode == Running {
        ReachableInv(s, n - 1);
        LineStep(s, c, Exits(s, n - 1));
        ServedMore(k, Turns(s, m, n - 1), TurnOf(s, c));
      } else {
        NoTurn(s, c);
        assert Turns(s, m, n - 1) + [] == Turns(s, m, n - 1) && Exits(s, n - 1) + [] == Exits(s, n - 1);
      }
    } else {
      ServedNone(Counter(Exits(s, m), Line(RunN(s, m))));
    }
  }

  lemma ServedNone(k: Counter)
    ensures Served(k, []) == k
  {
  }

  lemma NoTurn<L>(s: Setup<L>, c: Config<L>)
    requires c.mode != Running
    ensures TurnOf(s, c) == [] && Step(s, c) == c
  {
  }

  // ---- after the last switch ----

  lemma FinishedGrows<L>(s: Setup<L>, c: Config<L>)
    requires ValidSetup(s) && Inv(s, c) && Step(s, c).mode != Crashed
    ensures Step(s, c).finished == c.finished + if TurnOf(s, c) == [Leave] then {c.cur} else {}
    ensures TurnOf(s, c) == [Leave] ==> c.cur !in c.finished
  {
    hide LogInv, Rotated, TouchHandler;
    TouchKeepsHistory(s, c);
  }

  lemma TouchKeepsHistory<L>(s: Setup<L>, c: Config<L>)
    ensures forall touched :: var c' := TouchHandler(s, c, touched); c'.finished == c.finished && c'.yielded == c.yielded
  {
  }

  /** Every thread exits at most once. */
  lemma {:induction false} ExitsOnce<L>(s: Setup<L>, n: nat)
    requires ValidSetup(s) && RunN(s, n).mode != Crashed
    ensures Distinct(Exits(s, n)) && forall t :: t in Exits(s, n) <==> t in RunN(s, n).finished
  {
    hide Step, Inv, TurnOf, ValidSetup;
    if n > 0 {
      RunStep(s, n - 1);
      SwitchesGrow(s, n - 1, n);
      ExitsOnce(s, n - 1);
      ReachableInv(s, n - 1);
      FinishedGrows(s, RunN(s, n - 1));
    } else {
      NoneFinished(s);
    }
  }

  lemma NoneFinished<L>(s: Setup<L>)
    ensures Start(s).finished == {}
  {
  }

  lemma YieldShows<L>(s: Setup<L>, c: Config<L>)
    requires ValidSetup(s) && Inv(s, c)
    ensures c.yielded ==> Step(s, c).yielded
    ensures Performs(s, c) && s.progs[c.cur - 1].step(c.regs[c.cur - 1], c.mem).Yield? ==> Step(s, c).yielded
  {
    hide LogInv, Rotated, TouchHandler, Partition;
    TouchKeepsHistory(s, c);
  }

  lemma {:induction false} YieldedStays<L>(s: Setup<L>, m: nat, n: nat)
    requires ValidSetup(s) && m <= n && RunN(s, n).mode != Crashed && RunN(s, m).yielded
    ensures RunN(s, n).yielded
  {
    hide RunN, Step, Inv, ValidSetup;
    if m < n {
      RunStep(s, n - 1);
      SwitchesGrow(s, n - 1, n);
      YieldedStays(s, m, n - 1);
      ReachableInv(s, n - 1);
      YieldShows(s, RunN(s, n - 1));
    }
  }

  /** No thread prints in steps m..n. */
  ghost predicate Silent<L>(s: Setup<L>, m: nat, n: nat) {
    forall k :: m <= k < n ==> SilentAt(s, RunN(s, k))
  }

  ghost predicate SilentAt<L>(s: Setup<L>, c: Config<L>) {
    Performs(s, c) ==> !s.progs[c.cur - 1].step(c.regs[c.cur - 1], c.mem).Putc?
  }

  lemma {:induction false} OnlyLeave<L>(s: Setup<L>, m: nat, n: nat)
    requires ValidSetup(s) && Finishes(s) && n <= Length(s) && !Final(s).yielded && Silent(s, m, n)
    ensures Pass !in Turns(s, m, n)
  {
    hide RunN, Step, Inv, ValidSetup, Finishes;
    if m < n {
      OnlyLeave(s, m, n - 1);
      FinishedRunSteps(s, n - 1);
      assert SilentAt(s, RunN(s, n - 1));
      YieldShows(s, RunN(s, n - 1));
      RunStep(s, n - 1);
      FinishedRunSteps(s, n);
      if RunN(s, n).yielded {
        YieldedStays(s, n, Length(s));
      }
    }
  }

  /** People who only leave do so in the order of the line. */
  lemma {:induction false} LeavingInOrder(k: Counter, turns: seq<Turn>)
    requires Pass !in turns
    ensures Served(k, turns).left + Served(k, turns).line == k.left + k.line
  {
    if turns != [] {
      assert turns[|turns| - 1] in turns;
      LeavingInOrder(k, turns[..|turns| - 1]);
    }
  }

  lemma NobodyYet<L>(s: Setup<L>, c: Config<L>, c': Config<L>, exits: seq<nat>)
    requires Inv(s, c) && Inv(s, c') && c.active && c'.active && c.ctxSwitch + 1 < |s.tids|
    requires forall t :: t in exits <==> t in c'.finished
    ensures exits == [] && c.cur == s.tids[c.ctxSwitch]
  {
    HeadIsMember(exits);
  }

  lemma HeadIsMember(q: seq<nat>)
    ensures q != [] ==> q[0] in q
  {
  }

  /** The step that made the last switch; nobody has exited by then. */
  lemma LastSwitch<L>(s: Setup<L>) returns (m: nat)
    requires ValidSetup(s) && Finishes(s) && Final(s).ctxSwitch > 0
    ensures m < Length(s) && RunN(s, m).ctxSwitch + 1 == RunN(s, m + 1).ctxSwitch == Final(s).ctxSwitch < |s.tids|
    ensures var c, c' := RunN(s, m), RunN(s, m + 1); var n := |c'.queue|;
      && c.cur == s.tids[Final(s).ctxSwitch - 1] && c'.cur == s.tids[Final(s).ctxSwitch] && c'.mode == Running
      && n > 0 && c'.queue[n - 1] == c.cur && CyclicAfter(c.queue, c'.cur, c'.queue[..n - 1])
    ensures Exits(s, m + 1) == []
  {
    hide RunN, Step, Inv, ValidSetup, Finishes, CyclicAfter, Exits, TurnOf;
    var end := Length(s);
    m := LastStepWithin(s, Final(s).ctxSwitch - 1, end);
    SwitchesGrow(s, m + 1, end);
    RunStep(s, m);
    SwitchOrder(s, RunN(s, m));
    FinishedRunSteps(s, m);
    FinishedRunSteps(s, m + 1);
    ExitsOnce(s, m + 1);
    NobodyYet(s, RunN(s, m), RunN(s, m + 1), Exits(s, m + 1));
  }

  /** In a finished run that completed a switch and in which no thread yields, or prints after the last switch: the thread
      switched to exits first, the one last switched away from exits last, and those between in the order in which they
      waited in the queue, beginning behind the thread that was fetched. */
  lemma ExitOrder<L>(s: Setup<L>) returns (m: nat)
    requires ValidSetup(s) && Finishes(s) && Final(s).ctxSwitch > 0 && !Final(s).yielded
    ensures m < Length(s) && RunN(s, m).ctxSwitch + 1 == RunN(s, m + 1).ctxSwitch == Final(s).ctxSwitch < |s.tids|
    ensures RunN(s, m).cur == s.tids[Final(s).ctxSwitch - 1]
    ensures var order := Exits(s, Length(s));
      Silent(s, m + 1, Length(s)) ==>
        && |order| >= 2 && order[0] == s.tids[Final(s).ctxSwitch] && order[|order| - 1] == s.tids[Final(s).ctxSwitch - 1]
        && CyclicAfter(RunN(s, m).queue, order[0], order[1..|order| - 1])
  {
    hide RunN, Step, Inv, ValidSetup, Finishes, CyclicAfter, Silent, Served, Exits, Turns;
    m := LastSwitch(s);
    var end := Length(s);
    var c' := RunN(s, m + 1);
    if Silent(s, m + 1, end) {
      RunServes(s, m + 1, end);
      OnlyLeave(s, m + 1, end);
      LeavingInOrder(Counter([], Line(c')), Turns(s, m + 1, end));
      assert Exits(s, end) + [] == Exits(s, end) && [] + Line(c') == Line(c');
      assert ([c'.cur] + c'.queue)[1..|c'.queue|] == c'.queue[..|c'.queue| - 1];
    }
  }

  // ---- a thread that prints is overtaken ----

  /** Touches the shared byte and exits. */
  function Toucher(reg: nat, mem: Memory): Op<nat> {
    if reg != 0 then Exit else Exec(1, mem, {0})
  }

  /** Prints and exits. */
  function Printer(reg: nat, mem: Memory): Op<nat> {
    if reg != 0 then Exit else Op.Putc(1)
  }

  function TouchAndPrint(): Setup<nat> {
    Setup([Program(0, Toucher), Program(0, Printer)], a => 0, {0}, [1, 2], [1])
  }

  lemma FirstSteps()
    ensures var s := TouchAndPrint(); var c := RunN(s, 3);
      && c == Config(s.init, [1, 0], [1], 2, true, 1, 0, false, false, Resume, Running, {}, c.log)
      && TurnOf(s, RunN(s, 0)) == TurnOf(s, RunN(s, 1)) == TurnOf(s, RunN(s, 2)) == []
  {
    var s := TouchAndPrint();
    assert ResetQueue(2) == [2, 1] && IndexOf([2, 1], 1) == 1 && Rotated([2, 1], 1) == [2];
    assert Entries(s.progs) == [0, 0] && 0 in s.shared * {0};
    var c0 := Config(s.init, [0, 0], [2], 1, true, 0, 0, false, false, Boundary, Running, {}, []);
    assert RunN(s, 0) == c0;
    var c1 := c0.(event := Resume);
    RunStep(s, 0);
    assert RunN(s, 1) == c1;
    var c2 := c1.(regs := [1, 0], doCount := true, event := Boundary, log := [Entry(1, 0, true)]);
    RunStep(s, 1);
    assert RunN(s, 2) == c2;
    RunStep(s, 2);
  }

  lemma LastSteps()
    ensures var s := TouchAndPrint();
      && TurnOf(s, RunN(s, 3)) == [Pass] && TurnOf(s, RunN(s, 4)) == [Leave] && TurnOf(s, RunN(s, 5)) == [Leave]
      && RunN(s, 4).cur == 1 && RunN(s, 5).cur == 2
      && RunN(s, 6).mode == Done && RunN(s, 6).ctxSwitch == 1 && !RunN(s, 6).yielded
  {
    hide RunN, Rotated;
    var s := TouchAndPrint();
    FirstSteps();
    var c3 := RunN(s, 3);
    var c4 := c3.(regs := [1, 1], queue := [2], cur := 1);
    RunStep(s, 3);
    assert [1][1..] + [2] == [2] && [1, 0][1 := 1] == [1, 1];
    assert RunN(s, 4) == c4;
    var c5 := c4.(active := false, finished := {1}, cur := 2, queue := []);
    RunStep(s, 4);
    assert [2][1..] == [] && {} + {1} == {1};
    assert RunN(s, 5) == c5;
    RunStep(s, 5);
  }

  /** The order is another one if a thread prints after the last switch. Here the only switch is from thread 1 to thread 2,
      nobody yields, and yet thread 1 exits first: the print lets it pass. */
  lemma PrintingReorders()
    ensures var s := TouchAndPrint();
      && ValidSetup(s) && s.tids == [1, 2] && RunN(s, 6).mode == Done && RunN(s, 6).ctxSwitch == 1 && !RunN(s, 6).yielded
      && Exits(s, 6) == [1, 2]
  {
    hide RunN, TurnOf;
    var s := TouchAndPrint();
    FirstSteps();
    LastSteps();
    assert Exits(s, 3) == Exits(s, 2) == Exits(s, 1) == Exits(s, 0) == [];
    assert Exits(s, 4) == [] && Exits(s, 5) == [1];
  }
}
