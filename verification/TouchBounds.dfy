/** equiv-threads.c, interleaver.c: how many shared touches the completed segments of a schedule can have.
    If all runs come to an end, one number bounds them all. */
module TouchBounds {
  import opened Words
  import opened TidOdometer
  import opened CountOdometer
  import opened Machine
  import opened Permutations
  import opened Interleaver
  import opened SerialRuns
  import opened EarlyStops

  /** Every serial execution comes to an end. */
  ghost predicate AllSerialReturn<L>(p: Problem<L>) {
    forall order: seq<int> :: IsSerialOrder(order, |p.progs|) ==> SerialReturns(p.progs, order, p.init)
  }

  /** Every schedule of 1..ncs switches runs to the end. */
  ghost predicate AllFinish<L>(p: Problem<L>, ncs: nat) {
    forall i, x :: 1 <= i <= ncs && IsSchedule(p, i, x) ==> Finishes(SetupOf(p, x))
  }

  // ---- one segment ----

  lemma StepLog<L>(s: Setup<L>, c: Config<L>)
    ensures |Step(s, c).log| <= |c.log| + 1
  {
    hide Rotated;
  }

  lemma {:induction false} LogLength<L>(s: Setup<L>, n: nat)
    ensures |RunN(s, n).log| <= n
  {
    if n > 0 {
      LogLength(s, n - 1);
      StepLog(s, RunN(s, n - 1));
    }
  }

  lemma {:induction false} TouchesAtMost(log: seq<Entry>, j: nat)
    ensures Touches(log, j) <= |log|
  {
    if log != [] {
      TouchesAtMost(log[..|log| - 1], j);
    }
  }

  /** The step with which segment i ends. */
  lemma {:induction false} LastStepWithin<L>(s: Setup<L>, i: nat, n: nat) returns (m: nat)
    requires i < RunN(s, n).ctxSwitch
    ensures m < n && RunN(s, m).ctxSwitch <= i < RunN(s, m + 1).ctxSwitch
  {
    hide Step;
    if n > 0 {
      if i < RunN(s, n - 1).ctxSwitch {
        m := LastStepWithin(s, i, n - 1);
      } else {
        m := n - 1;
      }
    }
  }

  /** A switch out of segment i is made when the segment has its number of touches. */
  lemma SwitchingStep<L>(s: Setup<L>, c: Config<L>, i: nat)
    requires Inv(s, c) && c.ctxSwitch <= i < Step(s, c).ctxSwitch && i < |s.counts|
    ensures c.mode == Running && Touches(c.log, i) == s.counts[i]
  {
    hide Partition, Rotated;
  }

  /** Completing segment i takes no more touches than the schedule that stops short of it takes steps:
      up to there the two run alike. */
  lemma SegmentBound<L>(s: Setup<L>, i: nat)
    requires ValidSetup(s) && Finishes(s) && i < Final(s).ctxSwitch && i < |s.counts| && Finishes(Truncated(s, i))
    ensures s.counts[i] <= Length(Truncated(s, i))
  {
    hide Step, Inv, Start;
    var m := LastStepWithin(s, i, Length(s));
    FinishedRunSteps(s, m);
    FinishedRunSteps(s, m + 1);
    SwitchingStep(s, RunN(s, m), i);
    RunAlike(s, i, m);
    var t := Truncated(s, i);
    if m > Length(t) {
      DoneStays(t, Length(t), m);
    }
    LogLength(s, m);
    TouchesAtMost(RunN(s, m).log, i);
  }

  // ---- all segments ----

  /** A function has a bound on the vectors of one length over 1..b, since there are finitely many. */
  lemma {:induction false} BoundVectors(f: seq<nat> -> nat, k: nat, b: nat) returns (m: nat)
    ensures forall v :: |v| == k && Within(v, b) ==> f(v) <= m
    decreases k
  {
    m := f([]);
    if k > 0 {
      for d := 1 to b + 1
        invariant forall v: seq<nat> :: |v| == k && Within(v, b) && v[0] < d ==> f(v) <= m
      {
        var g := (w: seq<nat>) => f([d] + w);
        var m' := BoundVectors(g, k - 1, b);
        forall v: seq<nat> | |v| == k && Within(v, b) && v[0] == d
          ensures f(v) <= m'
        {
          assert v == [d] + v[1..] && Within(v[1..], b);
          assert g(v[1..]) == f(v);
        }
        m := if m' > m then m' else m;
      }
    }
  }

  /** The completed counts of x among the first k are below b. */
  ghost predicate CountsBelow<L>(p: Problem<L>, k: nat, b: nat, x: Probe) {
    Finishes(SetupOf(p, x)) ==> forall j :: 0 <= j < k && j < Switches(p, x) && j < |x.1| ==> x.1[j] < b
  }

  ghost predicate AllCountsBelow<L>(p: Problem<L>, ncs: nat, k: nat, b: nat) {
    forall i, x :: 1 <= i <= ncs && IsSchedule(p, i, x) ==> CountsBelow(p, k, b, x)
  }

  ghost function StepsOf<L>(p: Problem<L>, x: Probe): nat {
    if Finishes(SetupOf(p, x)) then Length(SetupOf(p, x)) else 0
  }

  /** The schedule that stops short of segment k, which is determined by k + 1 threads and k counts. */
  function Shortened(x: Probe, k: nat): Probe
    requires k < |x.0| && k <= |x.1|
  {
    (x.0[..k + 1], x.1[..k])
  }

  lemma ShortenedFinishes<L>(p: Problem<L>, ncs: nat, i: nat, x: Probe, k: nat)
    requires AllSerialReturn(p) && AllFinish(p, ncs) && k < i <= ncs && IsSchedule(p, i, x)
    ensures SetupOf(p, Shortened(x, k)) == Truncated(SetupOf(p, x), k) && Finishes(Truncated(SetupOf(p, x), k))
  {
    hide SerialReturns, IsSerialOrder, Finishes;
    var x' := Shortened(x, k);
    assert IsSchedule(p, k, x');
    if k == 0 {
      UninterruptedOrderIsSerial(|p.progs|, x.0[0]);
      NoSwitchesIsSerial(SetupOf(p, x'));
    }
  }

  /** The run of the schedule that k + 1 threads and k counts make up. */
  ghost function StepsOfVector<L>(p: Problem<L>, k: nat): seq<nat> -> nat {
    v => if |v| == 2 * k + 1 then StepsOf(p, (v[..k + 1], v[k + 1..])) else 0
  }

  lemma LevelBoundAt<L>(p: Problem<L>, ncs: nat, k: nat, b: nat, i: nat, x: Probe)
    requires AllSerialReturn(p) && AllFinish(p, ncs) && k < i <= ncs && IsSchedule(p, i, x)
    requires CountsBelow(p, k, b, x) && Finishes(SetupOf(p, x)) && k < Switches(p, x)
    ensures var v := x.0[..k + 1] + x.1[..k];
      && |v| == 2 * k + 1 && Within(v, if |p.progs| < b then b else |p.progs|)
      && x.1[k] <= StepsOfVector(p, k)(v)
  {
    hide Finishes, SerialReturns, AllSerialReturn, AllFinish, StepsOf;
    var v := x.0[..k + 1] + x.1[..k];
    ShortenedFinishes(p, ncs, i, x, k);
    SegmentBound(SetupOf(p, x), k);
    assert v[..k + 1] == x.0[..k + 1] && v[k + 1..] == x.1[..k];
    StepsOfFinished(p, Shortened(x, k));
  }

  lemma StepsOfFinished<L>(p: Problem<L>, x: Probe)
    requires Finishes(SetupOf(p, x))
    ensures StepsOf(p, x) == Length(SetupOf(p, x))
  {
  }

  /** Segment k of all schedules, given a bound on the counts before it. */
  lemma LevelBound<L>(p: Problem<L>, ncs: nat, k: nat, b: nat) returns (b': nat)
    requires AllSerialReturn(p) && AllFinish(p, ncs) && AllCountsBelow(p, ncs, k, b)
    ensures AllCountsBelow(p, ncs, k + 1, b')
  {
    hide Finishes, AllSerialReturn, AllFinish, StepsOfVector, Within;
    var top := if |p.progs| < b then b else |p.progs|;
    var m := BoundVectors(StepsOfVector(p, k), 2 * k + 1, top);
    b' := if b > m then b else m + 1;
    forall i, x | 1 <= i <= ncs && IsSchedule(p, i, x)
      ensures CountsBelow(p, k + 1, b', x)
    {
      assert CountsBelow(p, k, b, x);
      if Finishes(SetupOf(p, x)) && k < Switches(p, x) && k < i {
        LevelBoundAt(p, ncs, k, b, i, x);
      }
    }
  }

  lemma {:induction false} LevelBounds<L>(p: Problem<L>, ncs: nat, k: nat) returns (b: nat)
    requires AllSerialReturn(p) && AllFinish(p, ncs)
    ensures AllCountsBelow(p, ncs, k, b)
  {
    b := 0;
    if k > 0 {
      b := LevelBounds(p, ncs, k - 1);
      b := LevelBound(p, ncs, k - 1, b);
    }
  }

  /** If all serial executions return and all schedules finish, the touches of completed segments have a common bound. */
  lemma BoundedTouches<L>(p: Problem<L>, ncs: nat) returns (top: nat)
    requires AllSerialReturn(p) && AllFinish(p, ncs)
    ensures forall i :: 1 <= i <= ncs ==> Tame(p, i, top)
  {
    hide Finishes, SerialReturns, Inv;
    top := LevelBounds(p, ncs, ncs);
    forall i, x | 1 <= i <= ncs && IsSchedule(p, i, x)
      ensures var s := SetupOf(p, x);
        Finishes(s) && forall j :: 0 <= j < Final(s).ctxSwitch ==> Touches(Final(s).log, j) < top
    {
      var s := SetupOf(p, x);
      assert CountsBelow(p, ncs, top, x);
      forall j | 0 <= j < Final(s).ctxSwitch
        ensures Touches(Final(s).log, j) < top
      {
        RunRealisesSchedule(s, j);
      }
    }
  }

  lemma AllHaveBounds<L>(p: Problem<L>, ncs: nat)
    requires AllSerialReturn(p) && AllFinish(p, ncs)
    ensures forall i :: 1 <= i <= ncs ==> HasBound(p, i)
  {
    hide Tame, AllSerialReturn, AllFinish;
    var top := BoundedTouches(p, ncs);
    forall i | 1 <= i <= ncs
      ensures HasBound(p, i)
    {
      assert Tame(p, i, top);
    }
  }
}
