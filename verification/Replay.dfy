/** equiv-threads.c: a run is nothing but an interleaving of the functions' own instructions. The traps between them,
    the switches and the hand-overs change no memory and nobody's registers. */
module Replay {
  import opened Words
  import opened Machine
  import opened SerialRuns

  /** What instructions work on. */
  datatype Store<L> = Store(mem: Memory, regs: seq<L>)

  /** Thread t performs its next operation on its own registers and the memory. */
  function Perform<L>(progs: seq<Program<L>>, st: Store<L>, t: nat): Store<L> {
    if !(1 <= t <= |st.regs| == |progs|) then st
    else match progs[t - 1].step(st.regs[t - 1], st.mem)
      case Exec(l, m, _) => Store(m, st.regs[t - 1 := l])
      case Putc(l) => Store(st.mem, st.regs[t - 1 := l])
      case Yield(l) => Store(st.mem, st.regs[t - 1 := l])
      case Exit => st
  }

  /** The listed threads perform one operation each, one after the other, from their entries and the initial memory. */
  function Performed<L>(progs: seq<Program<L>>, init: Memory, ts: seq<nat>): Store<L> {
    if ts == [] then Store(init, Entries(progs))
    else Perform(progs, Performed(progs, init, ts[..|ts| - 1]), ts[|ts| - 1])
  }

  /** Who performs an operation at the next trap. */
  ghost function PerformerOf<L>(c: Config<L>): seq<nat> {
    if c.mode == Running && c.event == Resume then [c.cur] else []
  }

  ghost function Performers<L>(s: Setup<L>, n: nat): seq<nat> {
    if n == 0 then [] else Performers(s, n - 1) + PerformerOf(RunN(s, n - 1))
  }

  function StoreOf<L>(c: Config<L>): Store<L> {
    Store(c.mem, c.regs)
  }

  lemma TouchKeepsStore<L>(s: Setup<L>, c: Config<L>)
    ensures forall touched :: var c' := TouchHandler(s, c, touched);
      StoreOf(c') == StoreOf(c) && c'.cur == c.cur && c'.log == c.log && c'.ctxSwitch == c.ctxSwitch
  {
  }

  lemma StepPerforms<L>(s: Setup<L>, c: Config<L>)
    requires |c.regs| == s.N() && 1 <= c.cur <= s.N() && Step(s, c).mode != Crashed
    ensures StoreOf(Step(s, c)) == if PerformerOf(c) == [] then StoreOf(c) else Perform(s.progs, StoreOf(c), c.cur)
  {
    hide Rotated, TouchHandler;
    TouchKeepsStore(s, c);
  }

  lemma PerformedMore<L>(progs: seq<Program<L>>, init: Memory, ts: seq<nat>, more: seq<nat>)
    requires |more| <= 1
    ensures Performed(progs, init, ts + more) ==
      if more == [] then Performed(progs, init, ts) else Perform(progs, Performed(progs, init, ts), more[0])
  {
    if more == [] {
      assert ts + more == ts;
    } else {
      assert (ts + more)[..|ts|] == ts;
    }
  }

  lemma CurrentThread<L>(s: Setup<L>, c: Config<L>)
    requires Inv(s, c)
    ensures |c.regs| == s.N() && 1 <= c.cur <= s.N()
  {
  }

  lemma StartStore<L>(s: Setup<L>)
    ensures StoreOf(Start(s)) == Store(s.init, Entries(s.progs))
  {
  }

  /** Memory and registers are at all times what the operations performed so far make of them. */
  lemma {:induction false} RunIsInterleaving<L>(s: Setup<L>, n: nat)
    requires ValidSetup(s) && RunN(s, n).mode != Crashed
    ensures StoreOf(RunN(s, n)) == Performed(s.progs, s.init, Performers(s, n))
  {
    hide Step, Inv, StoreOf, Perform, PerformerOf, ValidSetup, Start;
    if n == 0 {
      StartStore(s);
    } else {
      RunStep(s, n - 1);
      SwitchesGrow(s, n - 1, n);
      RunIsInterleaving(s, n - 1);
      ReachableInv(s, n - 1);
      CurrentThread(s, RunN(s, n - 1));
      StepPerforms(s, RunN(s, n - 1));
      OneAtMost(RunN(s, n - 1));
      PerformedMore(s.progs, s.init, Performers(s, n - 1), PerformerOf(RunN(s, n - 1)));
    }
  }

  lemma OneAtMost<L>(c: Config<L>)
    ensures PerformerOf(c) == [] || PerformerOf(c) == [c.cur]
  {
  }

  ghost predicate Meet(x: set<Word>, y: set<Word>) {
    exists a :: a in x && a in y
  }

  lemma MeetIs(x: set<Word>, y: set<Word>)
    ensures Meet(x, y) <==> x * y != {}
  {
    if a :| a in x && a in y {
      assert a in x * y;
    } else {
      assert x * y == {};
    }
  }

  /** Every ordinary instruction, and nothing else, is logged: by whom, in which segment, and whether it touched a shared
      address. That is what the counts of a schedule count. */
  lemma LogRecords<L>(s: Setup<L>, c: Config<L>)
    requires |c.regs| == s.N() && 1 <= c.cur <= s.N() && Step(s, c).mode != Crashed
    ensures var op := s.progs[c.cur - 1].step(c.regs[c.cur - 1], c.mem);
      if PerformerOf(c) != [] && op.Exec? then
        exists e: Entry ::
          && Step(s, c).log == c.log + [e] && e.tid == c.cur && e.segment == c.ctxSwitch
          && (e.touch <==> Meet(s.shared, op.touched))
      else Step(s, c).log == c.log
  {
    hide Rotated, TouchHandler;
    TouchKeepsStore(s, c);
    if PerformerOf(c) != [] {
      var op := s.progs[c.cur - 1].step(c.regs[c.cur - 1], c.mem);
      if op.Exec? {
        var e := Entry(c.cur, c.ctxSwitch, s.shared * op.touched != {});
        assert Step(s, c).log == c.log + [e];
        MeetIs(s.shared, op.touched);
      }
    }
  }
}
