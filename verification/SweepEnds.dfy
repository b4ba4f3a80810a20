/** interleaver.c: when the loop of `run_interleavings` comes to an end. */
module SweepEnds {
  import opened Words
  import opened TidOdometer
  import opened CountOdometer
  import opened Machine
  import opened Interleaver
  import opened SerialRuns
  import opened TouchBounds

  // ---- a bound on the touches gives a finished sweep ----

  lemma {:induction false} SweepOn<L>(p: Problem<L>, ncs: nat, top: nat, visited: seq<Probe>, k: nat, x: Probe)
    returns (xs: seq<Probe>)
    requires ncs >= 1 && Tame(p, ncs, top) && Probing(p, ncs, top, visited, k, x) && SweepSoFar(p, ncs, visited + [x])
    ensures FinishedSweep(p, ncs, xs)
    decreases OrderingsLeft(p, ncs, k), Left(x.1, top + 1)
  {
    hide Tame, Probing, SweepSoFar, Swept, Orderings, Advance, Left, IsSchedule, Finishes, Switches, SetupOf;
    ProbingReady(p, ncs, top, visited, k, x);
    if Switches(p, x) > 0 {
      var y := (x.0, Advance(x.1, Switches(p, x)));
      ProbingCounts(p, ncs, top, visited, k, x, y.1);
      ProbingReady(p, ncs, top, visited + [x], k, y);
      OneMoreProbe(p, ncs, visited, x, y);
      xs := SweepOn(p, ncs, top, visited + [x], k, y);
    } else {
      ProbingOrder(p, ncs, top, visited, k, x);
      if k + 1 < |Orderings(|p.progs|, ncs + 1)| {
        var y := (Orderings(|p.progs|, ncs + 1)[k + 1], Ones(ncs));
        ProbingOrdering(p, ncs, top, visited, k, x, y.0);
        OneMoreProbe(p, ncs, visited, x, y);
        xs := SweepOn(p, ncs, top, visited + [x], k + 1, y);
      } else {
        xs := visited + [x];
      }
    }
  }

  /** After the k-th ordering comes the next of the enumeration, or nothing. */
  lemma ProbingOrder<L>(p: Problem<L>, ncs: nat, top: nat, visited: seq<Probe>, k: nat, x: Probe)
    requires ncs >= 1 && Probing(p, ncs, top, visited, k, x)
    ensures var o := Orderings(|p.progs|, ncs + 1);
      if k + 1 < |o| then IsNext(x.0, o[k + 1], |p.progs|) else IsLast(x.0, |p.progs|)
  {
    hide Orderings, IsNext, IsLast, Swept;
    SuccessorExists(|p.progs|, ncs + 1, k);
  }

  lemma TameSweepEnds<L>(p: Problem<L>, ncs: nat, top: nat) returns (xs: seq<Probe>)
    requires |p.progs| >= 2 && ncs >= 1 && Tame(p, ncs, top)
    ensures FinishedSweep(p, ncs, xs)
  {
    hide Tame, SweepSoFar, Probing, IsNext, IsLast, Orderings;
    var n := |p.progs|;
    OrderingExists(n, ncs);
    var t := Orderings(n, ncs + 1)[0];
    FirstIsNext(n, ncs);
    ProbingBegin(p, ncs, top, true, t);
    FirstProbe(p, ncs, t);
    xs := SweepOn(p, ncs, top, [], 0, (t, Ones(ncs)));
  }

  /** The first ordering of the enumeration is what next_tid finds from all ones. */
  lemma FirstIsNext(n: nat, ncs: nat)
    requires ncs >= 1 && n >= 2
    ensures Orderings(n, ncs + 1) != [] && IsNext(Ones(ncs + 1), Orderings(n, ncs + 1)[0], n)
  {
    var o := Orderings(n, ncs + 1);
    OrderingsExact(n, ncs + 1);
    OrderingExists(n, ncs);
    assert o[0] in o;
    AboveOnes(o[0], n, ncs);
    forall u | |u| == ncs + 1 && InRange(u, n) && Alternating(u)
      ensures Val(o[0], n) <= Val(u, n)
    {
      assert ValidOrdering(u, n, ncs + 1);
      var j :| 0 <= j < |o| && o[j] == u;
    }
  }

  /** All ones is below every valid ordering. */
  lemma AboveOnes(t: seq<nat>, n: nat, ncs: nat)
    requires ncs >= 1 && ValidOrdering(t, n, ncs + 1)
    ensures Val(Ones(ncs + 1), n) < Val(t, n)
  {
    ValOnes(ncs + 1, n);
    ValBounds(t, n);
    assert t[0] != t[0 + 1];
    if Val(t, n) == 0 {
      ValInjective(Ones(ncs + 1), t, n);
    }
  }

  // ---- and the other way round ----

  ghost predicate AtOrBefore(n: nat, x: Probe, y: Probe) {
    x == y || Before(n, x, y)
  }

  lemma NextIsSchedule<L>(p: Problem<L>, ncs: nat, x: Probe, y: Probe)
    requires IsSchedule(p, ncs, x) && NextProbe(p, ncs, x, y)
    ensures IsSchedule(p, ncs, y)
  {
    if Switches(p, x) > 0 {
      AdvanceIsGreater(x.1, Switches(p, x));
    }
  }

  lemma {:induction false} ProbesAreSchedules<L>(p: Problem<L>, ncs: nat, xs: seq<Probe>, j: nat)
    requires ncs >= 1 && SweepSoFar(p, ncs, xs) && j < |xs|
    ensures IsSchedule(p, ncs, xs[j])
  {
    hide NextProbe;
    if j > 0 {
      ProbesAreSchedules(p, ncs, xs, j - 1);
      assert NextProbe(p, ncs, xs[j - 1], xs[j - 1 + 1]);
      NextIsSchedule(p, ncs, xs[j - 1], xs[j]);
    }
  }

  /** The first probe is the least schedule. */
  lemma FirstIsLeast<L>(p: Problem<L>, ncs: nat, x: Probe, y: Probe)
    requires ncs >= 1 && IsSchedule(p, ncs, y)
    requires IsNext(Ones(ncs + 1), x.0, |p.progs|) && x.1 == Ones(ncs)
    ensures AtOrBefore(|p.progs|, x, y)
  {
    AboveOnes(y.0, |p.progs|, ncs);
    if Val(x.0, |p.progs|) == Val(y.0, |p.progs|) {
      ValInjective(x.0, y.0, |p.progs|);
      OnesLeast(y.1);
    }
  }

  /** The last probe that is not after y. */
  lemma {:induction false} Locate(n: nat, xs: seq<Probe>, y: Probe, i: nat) returns (j: nat)
    requires i < |xs| && AtOrBefore(n, xs[i], y)
    ensures j < |xs| && AtOrBefore(n, xs[j], y) && (j + 1 < |xs| ==> !AtOrBefore(n, xs[j + 1], y))
    decreases |xs| - i
  {
    j := i;
    if i + 1 < |xs| && AtOrBefore(n, xs[i + 1], y) {
      j := Locate(n, xs, y, i + 1);
    }
  }

  /** Once an ordering has completed no switch, schedules of later orderings are not before the next probe. */
  lemma LaterOrdering(n: nat, ncs: nat, x: Probe, x': Probe, y: Probe)
    requires IsNext(x.0, x'.0, n) && x'.1 == Ones(ncs) && ValidOrdering(y.0, n, |x.0|) && |y.1| == ncs && Positive(y.1)
    requires Val(x.0, n) < Val(y.0, n)
    ensures AtOrBefore(n, x', y)
  {
    if Val(x'.0, n) == Val(y.0, n) {
      ValInjective(x'.0, y.0, n);
      OnesLeast(y.1);
    }
  }

  /** A schedule after a probe and before the next has the probe's ordering, and higher counts, but not as high as the next. */
  lemma BetweenProbes<L>(p: Problem<L>, ncs: nat, x: Probe, x': Probe, y: Probe)
    requires IsSchedule(p, ncs, x) && IsSchedule(p, ncs, y) && Before(|p.progs|, x, y)
    requires NextProbe(p, ncs, x, x') && !AtOrBefore(|p.progs|, x', y)
    ensures y.0 == x.0 && Less(x.1, y.1)
    ensures Switches(p, x) > 0 ==> Less(y.1, Advance(x.1, Switches(p, x)))
  {
    hide Finishes, Switches, IsNext;
    var n := |p.progs|;
    if Switches(p, x) > 0 {
      AdvanceIsGreater(x.1, Switches(p, x));
      LessTotal(y.1, x'.1);
    } else if Val(x.0, n) < Val(y.0, n) {
      LaterOrdering(n, ncs, x, x', y);
    }
  }

  /** Every schedule runs as one of the probes does. */
  lemma RunsAsProbe<L>(p: Problem<L>, ncs: nat, xs: seq<Probe>, y: Probe) returns (j: nat)
    requires ncs >= 1 && FinishedSweep(p, ncs, xs) && IsSchedule(p, ncs, y)
    ensures j < |xs| && IsSchedule(p, ncs, xs[j]) && Finishes(SetupOf(p, xs[j]))
    ensures Finishes(SetupOf(p, y)) && Final(SetupOf(p, y)) == Final(SetupOf(p, xs[j]))
  {
    hide IsNext, IsLast, Finishes, Before, Less, SetupOf, IsSchedule;
    var n := |p.progs|;
    FirstIsLeast(p, ncs, xs[0], y);
    j := Locate(n, xs, y, 0);
    ProbesAreSchedules(p, ncs, xs, j);
    if j + 1 < |xs| {
      assert NextProbe(p, ncs, xs[j], xs[j + 1]);
      if xs[j] != y {
        BetweenProbes(p, ncs, xs[j], xs[j + 1], y);
        RunsAsBelow(p, ncs, xs[j], y);
      }
    } else if xs[j] != y {
      AfterLast(p, ncs, xs[j], y);
      RunsAsBelow(p, ncs, xs[j], y);
    }
  }

  lemma AfterLast<L>(p: Problem<L>, ncs: nat, x: Probe, y: Probe)
    requires IsSchedule(p, ncs, x) && IsSchedule(p, ncs, y) && Before(|p.progs|, x, y) && IsLast(x.0, |p.progs|)
    ensures y.0 == x.0 && Less(x.1, y.1)
  {
  }

  lemma RunsAsBelow<L>(p: Problem<L>, ncs: nat, x: Probe, y: Probe)
    requires IsSchedule(p, ncs, x) && IsSchedule(p, ncs, y) && y.0 == x.0 && Less(x.1, y.1)
    requires Finishes(SetupOf(p, x)) && Switches(p, x) <= |x.1|
    requires Switches(p, x) > 0 ==> Less(y.1, Advance(x.1, Switches(p, x)))
    ensures Finishes(SetupOf(p, y)) && Final(SetupOf(p, y)) == Final(SetupOf(p, x))
  {
    hide Finishes, Less, Advance;
    BetweenSharesPrefix(x.1, Switches(p, x), y.1);
    StopsAlike(p, ncs, x, y.1);
    assert y == (x.0, y.1);
  }

  /** A number above every count of every probe. */
  lemma {:induction false} AboveAllCounts(xs: seq<Probe>) returns (top: nat)
    ensures forall j, i :: 0 <= j < |xs| && 0 <= i < |xs[j].1| ==> xs[j].1[i] < top
  {
    top := 0;
    if xs != [] {
      top := AboveAllCounts(xs[1..]);
      var high := AboveCounts(xs[0].1);
      top := if high > top then high else top;
      forall j, i | 0 <= j < |xs| && 0 <= i < |xs[j].1|
        ensures xs[j].1[i] < top
      {
        assert j > 0 ==> xs[j] == xs[1..][j - 1];
      }
    }
  }

  lemma {:induction false} AboveCounts(c: seq<nat>) returns (top: nat)
    ensures forall i :: 0 <= i < |c| ==> c[i] < top
  {
    top := 0;
    if c != [] {
      top := AboveCounts(c[1..]);
      top := if c[0] + 1 > top then c[0] + 1 else top;
      assert forall i :: 1 <= i < |c| ==> c[i] == c[1..][i - 1];
    }
  }

  lemma FinishedSweepIsTame<L>(p: Problem<L>, ncs: nat, xs: seq<Probe>) returns (top: nat)
    requires ncs >= 1 && FinishedSweep(p, ncs, xs)
    ensures Tame(p, ncs, top)
  {
    hide FinishedSweep, Inv;
    top := AboveAllCounts(xs);
    forall y | IsSchedule(p, ncs, y)
      ensures var s := SetupOf(p, y);
        Finishes(s) && forall i :: 0 <= i < Final(s).ctxSwitch ==> Touches(Final(s).log, i) < top
    {
      var j := RunsAsProbe(p, ncs, xs, y);
      var s := SetupOf(p, xs[j]);
      forall i | 0 <= i < Final(s).ctxSwitch
        ensures Touches(Final(s).log, i) < top
      {
        RunRealisesSchedule(s, i);
      }
    }
  }

  ghost predicate SweepIsFinite<L>(p: Problem<L>, ncs: nat) {
    exists xs :: FinishedSweep(p, ncs, xs)
  }

  /** The loop of a sweep ends if and only if every schedule does and the touches of completed segments are bounded. */
  lemma SweepEndsExactly<L>(p: Problem<L>, ncs: nat)
    requires |p.progs| >= 2 && ncs >= 1
    ensures SweepIsFinite(p, ncs) <==> HasBound(p, ncs)
  {
    hide FinishedSweep, Tame;
    if xs :| FinishedSweep(p, ncs, xs) {
      var top := FinishedSweepIsTame(p, ncs, xs);
    }
    if top :| Tame(p, ncs, top) {
      var xs := TameSweepEnds(p, ncs, top);
    }
  }

  /** If the serial executions return, the sweeps of 1..ncs switches end if and only if all their schedules do. */
  lemma CheckerEndsExactly<L>(p: Problem<L>, ncs: nat)
    requires |p.progs| >= 2 && AllSerialReturn(p)
    ensures (forall i :: 1 <= i <= ncs ==> SweepIsFinite(p, i)) <==> AllFinish(p, ncs)
  {
    hide FinishedSweep, AllSerialReturn, SweepIsFinite;
    if AllFinish(p, ncs) {
      AllHaveBounds(p, ncs);
      forall i | 1 <= i <= ncs
        ensures SweepIsFinite(p, i)
      {
        SweepEndsExactly(p, i);
      }
    }
    if forall i :: 1 <= i <= ncs ==> SweepIsFinite(p, i) {
      forall i, x | 1 <= i <= ncs && IsSchedule(p, i, x)
        ensures Finishes(SetupOf(p, x))
      {
        SweepEndsExactly(p, i);
        var top :| Tame(p, i, top);
      }
    }
  }
}
