/** equiv-threads.c: a schedule that stops early is, for its result, the schedule of the switches that it completed. */
module EarlyStops {
  import opened Words
  import opened Machine

  /** The first k switches of a schedule. */
  function Truncated<L>(s: Setup<L>, k: nat): Setup<L>
    requires k <= |s.counts| < |s.tids|
  {
    s.(tids := s.tids[..k + 1], counts := s.counts[..k])
  }

  /** The same but for the counting of touches in segment k, where the shorter schedule does not count. */
  ghost predicate Alike<L>(k: nat, c: Config<L>, c': Config<L>) {
    && c' == c.(instrCount := c'.instrCount, doCount := c'.doCount)
    && (c.ctxSwitch < k ==> c' == c)
    && (c.ctxSwitch >= k ==> !c'.doCount)
  }

  ghost predicate Stays<L>(s: Setup<L>, k: nat, c: Config<L>)
    requires k <= |s.counts| < |s.tids|
  {
    c.ctxSwitch <= k && Step(s, c).ctxSwitch <= k && Step(s, c).mode != Crashed
  }

  lemma BoundaryAlike<L>(s: Setup<L>, k: nat, c: Config<L>, c': Config<L>)
    requires |s.tids| == |s.counts| + 1 && k <= |s.counts| && Stays(s, k, c) && Alike(k, c, c')
    requires c.mode == Running && c.event == Boundary
    ensures Alike(k, Step(s, c), Step(Truncated(s, k), c'))
  {
    hide Execute, Rotated;
    var s' := Truncated(s, k);
    if c.ctxSwitch < k {
      assert s'.counts[c.ctxSwitch] == s.counts[c.ctxSwitch] && s'.tids[c.ctxSwitch + 1] == s.tids[c.ctxSwitch + 1];
    }
  }

  lemma TouchAlike<L>(s: Setup<L>, k: nat, c: Config<L>, c': Config<L>, touched: set<Word>)
    requires |s.tids| == |s.counts| + 1 && k <= |s.counts| && c.ctxSwitch <= k && Alike(k, c, c')
    ensures Alike(k, TouchHandler(s, c, touched), TouchHandler(Truncated(s, k), c', touched))
    ensures TouchHandler(s, c, touched) == c.(doCount := TouchHandler(s, c, touched).doCount)
    ensures TouchHandler(Truncated(s, k), c', touched) == c'.(doCount := TouchHandler(Truncated(s, k), c', touched).doCount)
  {
  }

  /** An ordinary instruction. */
  lemma ExecAlike<L>(s: Setup<L>, k: nat, c: Config<L>, c': Config<L>, l: L, m: Memory, touched: set<Word>)
    requires |s.tids| == |s.counts| + 1 && k <= |s.counts| && c.ctxSwitch <= k && Alike(k, c, c')
    requires 1 <= c.cur <= |c.regs| == s.N() && s.progs[c.cur - 1].step(c.regs[c.cur - 1], c.mem) == Exec(l, m, touched)
    ensures Alike(k, Execute(s, c), Execute(Truncated(s, k), c'))
  {
    hide TouchHandler, SaveRegs;
    TouchAlike(s, k, c, c', touched);
    Saved(TouchHandler(s, c, touched), l);
    Saved(TouchHandler(Truncated(s, k), c', touched), l);
  }

  /** A system call. */
  lemma CallAlike<L>(s: Setup<L>, k: nat, c: Config<L>, c': Config<L>, l: L)
    requires |s.tids| == |s.counts| + 1 && k <= |s.counts| && c.ctxSwitch <= k && Alike(k, c, c')
    requires 1 <= c.cur <= |c.regs| == s.N()
    requires var op := s.progs[c.cur - 1].step(c.regs[c.cur - 1], c.mem); op == Exit || op == Yield(l) || op == Op.Putc(l)
    requires Execute(s, c).mode != Crashed
    ensures Alike(k, Execute(s, c), Execute(Truncated(s, k), c'))
  {
    hide TouchHandler, SaveRegs;
    Saved(c, l);
    Saved(c', l);
  }

  lemma ResumeAlike<L>(s: Setup<L>, k: nat, c: Config<L>, c': Config<L>)
    requires |s.tids| == |s.counts| + 1 && k <= |s.counts| && Stays(s, k, c) && Alike(k, c, c')
    requires c.mode == Running && c.event == Resume && 1 <= c.cur <= |c.regs| == s.N()
    ensures Alike(k, Execute(s, c), Execute(Truncated(s, k), c'))
  {
    hide Execute, StepHandler;
    match s.progs[c.cur - 1].step(c.regs[c.cur - 1], c.mem)
    case Exec(l, m, touched) => ExecAlike(s, k, c, c', l, m, touched);
    case Putc(l) => CallAlike(s, k, c, c', l);
    case Yield(l) => CallAlike(s, k, c, c', l);
    case Exit => CallAlike(s, k, c, c', c.regs[c.cur - 1]);
  }

  /** A thread that does not exist crashes the run, so it does not come to that. */
  lemma ThreadExists<L>(s: Setup<L>, c: Config<L>)
    requires c.mode == Running && c.event == Resume && Step(s, c).mode != Crashed
    ensures 1 <= c.cur <= |c.regs| == s.N()
  {
  }

  lemma StepAlike<L>(s: Setup<L>, k: nat, c: Config<L>, c': Config<L>)
    requires |s.tids| == |s.counts| + 1 && k <= |s.counts| && Stays(s, k, c) && Alike(k, c, c')
    ensures Alike(k, Step(s, c), Step(Truncated(s, k), c'))
  {
    hide StepHandler, Execute;
    if c.mode == Running {
      if c.event == Boundary {
        BoundaryAlike(s, k, c, c');
      } else {
        ThreadExists(s, c);
        ResumeAlike(s, k, c, c');
      }
    }
  }

  lemma {:induction false} RunAlike<L>(s: Setup<L>, k: nat, n: nat)
    requires |s.tids| == |s.counts| + 1 && k <= |s.counts|
    requires RunN(s, n).ctxSwitch <= k && RunN(s, n).mode != Crashed
    ensures Alike(k, RunN(s, n), RunN(Truncated(s, k), n))
  {
    hide Step;
    if n > 0 {
      SwitchesGrow(s, n - 1, n);
      RunAlike(s, k, n - 1);
      StepAlike(s, k, RunN(s, n - 1), RunN(Truncated(s, k), n - 1));
    }
  }

  /** Dropping the switches that a run never made changes neither its memory nor anything else it reports. */
  lemma TruncationKeepsResult<L>(s: Setup<L>)
    requires ValidSetup(s) && Finishes(s)
    ensures var k := Final(s).ctxSwitch;
      && k <= |s.counts| && ValidSetup(Truncated(s, k)) && Finishes(Truncated(s, k))
      && var f := Final(Truncated(s, k)); f.ctxSwitch == k && f.mem == Final(s).mem && f.yielded == Final(s).yielded
  {
    hide Step, Inv;
    ReachableSwitches(s);
    var k := Final(s).ctxSwitch;
    RunAlike(s, k, Length(s));
    FinalUnique(Truncated(s, k), Length(s));
  }

  lemma ReachableSwitches<L>(s: Setup<L>)
    requires ValidSetup(s) && Finishes(s)
    ensures Final(s).ctxSwitch <= |s.counts|
  {
    ReachableInv(s, Length(s));
  }
}
