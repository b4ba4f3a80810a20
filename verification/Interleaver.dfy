/** interleaver.c: the run of every interleaving with a given number of context switches. */
module Interleaver {
  import opened Words
  import opened TidOdometer
  import opened CountOdometer
  import opened Machine
  import opened Scheduler
  import opened XXHash32
  import opened MemoryHash
  import TrieSet

  /** The functions under test, the memory `init` leaves, and the shared addresses. */
  datatype Problem<!L> = Problem(progs: seq<Program<L>>, init: Memory, shared: set<Word>)

  type Probe = (seq<nat>, seq<nat>)  // a thread ordering and the instruction counts

  function SetupOf<L>(p: Problem<L>, x: Probe): Setup<L> {
    Setup(p.progs, p.init, p.shared, x.0, x.1)
  }

  /** Adjacent threads distinct and counts at least one: what the checker may try. */
  ghost predicate IsSchedule<L>(p: Problem<L>, ncs: nat, x: Probe) {
    ValidOrdering(x.0, |p.progs|, ncs + 1) && |x.1| == ncs && Positive(x.1)
  }

  /** Every schedule runs to the end, and no segment it completes touches shared memory `top` times or more. */
  ghost predicate Tame<L>(p: Problem<L>, ncs: nat, top: nat) {
    forall x: Probe :: IsSchedule(p, ncs, x) ==>
      var s := SetupOf(p, x);
      Finishes(s) && forall i :: 0 <= i < Final(s).ctxSwitch ==> Touches(Final(s).log, i) < top
  }

  ghost predicate HasBound<L>(p: Problem<L>, ncs: nat) {
    exists top :: Tame(p, ncs, top)
  }

  lemma TakeBound<L>(p: Problem<L>, ncs: nat) returns (top: nat)
    requires HasBound(p, ncs)
    ensures Tame(p, ncs, top)
  {
    var t: nat :| Tame(p, ncs, t);
    top := t;
  }

  /** The switches a schedule completes. */
  ghost function Switches<L>(p: Problem<L>, x: Probe): nat
    requires Finishes(SetupOf(p, x))
  {
    Final(SetupOf(p, x)).ctxSwitch
  }

  ghost predicate Completes<L>(p: Problem<L>, ncs: nat, x: Probe) {
    IsSchedule(p, ncs, x) && Finishes(SetupOf(p, x)) && Switches(p, x) == ncs
  }

  /** A schedule completes all its switches without yielding, and ends in a memory whose hash is not among the valid ones. */
  ghost predicate Invalid<L>(p: Problem<L>, ncs: nat, start: Lanes, valid: set<int>, x: Probe) {
    && Completes(p, ncs, x) && OfWords(p.shared)
    && !Final(SetupOf(p, x)).yielded
    && HashOf(start, p.shared, Final(SetupOf(p, x)).mem) !in valid
  }

  lemma SwitchesBounded<L>(p: Problem<L>, ncs: nat, top: nat, x: Probe)
    requires Tame(p, ncs, top) && IsSchedule(p, ncs, x)
    ensures ValidSetup(SetupOf(p, x)) && Finishes(SetupOf(p, x)) && Switches(p, x) <= ncs
    ensures forall i :: 0 <= i < Switches(p, x) ==> x.1[i] < top
  {
    var s := SetupOf(p, x);
    FinishedRunSteps(s, Length(s));
    forall i | 0 <= i < Switches(p, x)
      ensures x.1[i] < top
    {
      RunRealisesSchedule(s, i);
    }
  }

  /** A schedule that stops early at switch k runs no differently with other later counts and a higher count k. */
  lemma StopsAlike<L>(p: Problem<L>, ncs: nat, x: Probe, d: seq<nat>)
    requires IsSchedule(p, ncs, x) && |d| == ncs && Finishes(SetupOf(p, x))
    requires var k := Switches(p, x); k < ncs && d[..k] == x.1[..k] && d[k] >= x.1[k]
    ensures Finishes(SetupOf(p, (x.0, d))) && Final(SetupOf(p, (x.0, d))) == Final(SetupOf(p, x))
  {
    PrefixDetermined(SetupOf(p, x), SetupOf(p, (x.0, d)));
  }

  lemma SwitchesStay<L>(p: Problem<L>, ncs: nat, top: nat, x: Probe, d: seq<nat>)
    requires Tame(p, ncs, top) && IsSchedule(p, ncs, x) && |d| == ncs && Positive(d)
    requires var k := Switches(p, x); k < ncs && d[..k] == x.1[..k] && d[k] >= x.1[k]
    ensures Finishes(SetupOf(p, (x.0, d))) && Switches(p, (x.0, d)) == Switches(p, x)
  {
    StopsAlike(p, ncs, x, d);
  }

  // ---- the order of the probes ----

  ghost predicate Before(n: nat, x: Probe, y: Probe) {
    Val(x.0, n) < Val(y.0, n) || (x.0 == y.0 && |x.1| == |y.1| && Less(x.1, y.1))
  }

  ghost predicate InOrder(n: nat, xs: seq<Probe>) {
    forall i, j :: 0 <= i < j < |xs| ==> Before(n, xs[i], xs[j])
  }

  /** The probes made so far: schedules in strictly increasing order, all before x, and none that completes left out. */
  ghost predicate Swept<L>(p: Problem<L>, ncs: nat, visited: seq<Probe>, x: Probe) {
    && InOrder(|p.progs|, visited)
    && (forall i :: 0 <= i < |visited| ==> IsSchedule(p, ncs, visited[i]) && Before(|p.progs|, visited[i], x))
    && (forall y :: Completes(p, ncs, y) && Before(|p.progs|, y, x) ==> y in visited)
  }

  /** The same at the end: nothing that completes is left out at all. */
  ghost predicate SweptAll<L>(p: Problem<L>, ncs: nat, visited: seq<Probe>) {
    && InOrder(|p.progs|, visited)
    && (forall i :: 0 <= i < |visited| ==> IsSchedule(p, ncs, visited[i]))
    && (forall y :: Completes(p, ncs, y) ==> y in visited)
  }

  lemma BeforeTransitive(n: nat, x: Probe, y: Probe, z: Probe)
    requires Before(n, x, y) && Before(n, y, z)
    ensures Before(n, x, z)
  {
    if x.0 == y.0 == z.0 && Val(x.0, n) >= Val(z.0, n) {
      LessTransitive(x.1, y.1, z.1);
    }
  }

  /** Of the schedules with the probe's own ordering, those up to the next counts that complete are visited or the probe itself. */
  lemma NothingBetween<L>(p: Problem<L>, ncs: nat, top: nat, x: Probe, d: seq<nat>)
    requires Tame(p, ncs, top) && IsSchedule(p, ncs, x) && ncs >= 1 && Completes(p, ncs, (x.0, d))
    requires var k := SwitchesOf(p, ncs, top, x); k > 0 ==> Less(d, Advance(x.1, k))
    ensures d == x.1 || Less(d, x.1)
  {
    var k := SwitchesOf(p, ncs, top, x);
    LessTotal(x.1, d);
    if Less(x.1, d) {
      BetweenSharesPrefix(x.1, k, d);
      SwitchesStay(p, ncs, top, x, d);
    }
  }

  ghost function SwitchesOf<L>(p: Problem<L>, ncs: nat, top: nat, x: Probe): (k: nat)
    requires Tame(p, ncs, top) && IsSchedule(p, ncs, x)
    ensures k <= ncs && k == Switches(p, x)
  {
    SwitchesBounded(p, ncs, top, x);
    Switches(p, x)
  }

  lemma SweepCounts<L>(p: Problem<L>, ncs: nat, top: nat, visited: seq<Probe>, x: Probe)
    requires Tame(p, ncs, top) && IsSchedule(p, ncs, x) && ncs >= 1 && Swept(p, ncs, visited, x)
    requires SwitchesOf(p, ncs, top, x) > 0
    ensures var c' := Advance(x.1, SwitchesOf(p, ncs, top, x));
      IsSchedule(p, ncs, (x.0, c')) && Swept(p, ncs, visited + [x], (x.0, c'))
  {
    var k := SwitchesOf(p, ncs, top, x);
    var n := |p.progs|;
    var x' := (x.0, Advance(x.1, k));
    AdvanceIsGreater(x.1, k);
    forall i | 0 <= i < |visited|
      ensures Before(n, visited[i], x')
    {
      BeforeTransitive(n, visited[i], x, x');
    }
    forall y | Completes(p, ncs, y) && Before(n, y, x')
      ensures y in visited + [x]
    {
      if Val(y.0, n) >= Val(x.0, n) {
        NothingBetween(p, ncs, top, x, y.1);
      }
    }
  }

  lemma SweepOrdering<L>(p: Problem<L>, ncs: nat, top: nat, visited: seq<Probe>, x: Probe, t': seq<nat>)
    requires Tame(p, ncs, top) && IsSchedule(p, ncs, x) && ncs >= 1 && Swept(p, ncs, visited, x)
    requires SwitchesOf(p, ncs, top, x) == 0 && IsNext(x.0, t', |p.progs|)
    ensures IsSchedule(p, ncs, (t', Ones(ncs))) && Swept(p, ncs, visited + [x], (t', Ones(ncs)))
  {
    var n := |p.progs|;
    var x' := (t', Ones(ncs));
    forall i | 0 <= i < |visited|
      ensures Before(n, visited[i], x')
    {
      BeforeTransitive(n, visited[i], x, x');
    }
    forall y | Completes(p, ncs, y) && Before(n, y, x')
      ensures y in visited + [x]
    {
      OnesLeast(y.1);
      LessTotal(y.1, Ones(ncs));
      assert Val(y.0, n) <= Val(x.0, n);
      if Val(y.0, n) == Val(x.0, n) {
        ValInjective(y.0, x.0, n);
        NothingBetween(p, ncs, top, x, y.1);
      }
    }
  }

  lemma SweepEnd<L>(p: Problem<L>, ncs: nat, top: nat, visited: seq<Probe>, x: Probe)
    requires Tame(p, ncs, top) && IsSchedule(p, ncs, x) && ncs >= 1 && Swept(p, ncs, visited, x)
    requires SwitchesOf(p, ncs, top, x) == 0 && IsLast(x.0, |p.progs|)
    ensures SweptAll(p, ncs, visited + [x])
  {
    var n := |p.progs|;
    forall y | Completes(p, ncs, y)
      ensures y in visited + [x]
    {
      assert Val(y.0, n) <= Val(x.0, n);
      if Val(y.0, n) == Val(x.0, n) {
        ValInjective(y.0, x.0, n);
        NothingBetween(p, ncs, top, x, y.1);
      }
    }
  }

  lemma SweepBegin<L>(p: Problem<L>, ncs: nat, t: seq<nat>)
    requires ncs >= 1 && IsNext(Ones(ncs + 1), t, |p.progs|)
    ensures IsSchedule(p, ncs, (t, Ones(ncs))) && Swept(p, ncs, [], (t, Ones(ncs)))
  {
    var n := |p.progs|;
    FirstOrdering(n, ncs, t);
    OrderingsExact(n, ncs + 1);
    forall y | Completes(p, ncs, y) && Before(n, y, (t, Ones(ncs)))
      ensures false
    {
      var o := Orderings(n, ncs + 1);
      assert y.0 in o;
      var j :| 0 <= j < |o| && o[j] == y.0;
      OnesLeast(y.1);
      LessTotal(y.1, Ones(ncs));
    }
  }

  /** The invalid schedules among those probed, in the order they were found. */
  ghost function InvalidAmong<L>(p: Problem<L>, ncs: nat, start: Lanes, valid: set<int>,
          visited: seq<Probe>): seq<Probe>
  {
    if visited == [] then [] else
    var x := visited[|visited| - 1];
    InvalidAmong(p, ncs, start, valid, visited[..|visited| - 1]) + if Invalid(p, ncs, start, valid, x) then [x] else []
  }

  lemma {:induction false} InvalidAmongExact<L>(p: Problem<L>, ncs: nat, start: Lanes, valid: set<int>,
          visited: seq<Probe>)
    ensures forall x :: x in InvalidAmong(p, ncs, start, valid, visited) <==> x in visited && Invalid(p, ncs, start, valid, x)
  {
    if visited != [] {
      var init := visited[..|visited| - 1];
      InvalidAmongExact(p, ncs, start, valid, init);
      assert visited == init + [visited[|visited| - 1]];
    }
  }

  lemma {:induction false} InvalidAmongInOrder<L>(p: Problem<L>, ncs: nat, start: Lanes, valid: set<int>,
          visited: seq<Probe>, n: nat)
    requires InOrder(n, visited)
    ensures InOrder(n, InvalidAmong(p, ncs, start, valid, visited))
  {
    if visited != [] {
      var init := visited[..|visited| - 1];
      InvalidAmongInOrder(p, ncs, start, valid, init, n);
      InvalidAmongExact(p, ncs, start, valid, init);
      var bad := InvalidAmong(p, ncs, start, valid, init);
      forall i | 0 <= i < |bad|
        ensures Before(n, bad[i], visited[|visited| - 1])
      {
        assert bad[i] in init;
      }
    }
  }

  /** Everything invalid among the schedules is reported, nothing else, and in the order of the sweep (so once). */
  lemma ReportsExact<L>(p: Problem<L>, ncs: nat, start: Lanes, valid: set<int>, visited: seq<Probe>)
    requires SweptAll(p, ncs, visited)
    ensures var reports := InvalidAmong(p, ncs, start, valid, visited);
      InOrder(|p.progs|, reports) && forall x :: x in reports <==> Invalid(p, ncs, start, valid, x)
  {
    InvalidAmongExact(p, ncs, start, valid, visited);
    InvalidAmongInOrder(p, ncs, start, valid, visited, |p.progs|);
  }

  /** One iteration's run and verdict. */
  method RunOne<L>(threads: Threads<L>, p: Problem<L>, shared: TrieSet.Node, valid: TrieSet.Node, start: Lanes,
          ncs: nat, tids: seq<nat>, counts: seq<nat>)
    returns (switches: nat, bad: bool)
    requires threads.progs == p.progs && threads.queue == []
    requires shared.Valid() && shared.offset == TrieSet.MAX_OFFSET && shared.Elems() == p.shared
    requires valid.Valid() && valid.offset == TrieSet.MAX_OFFSET
    requires IsSchedule(p, ncs, (tids, counts)) && Finishes(SetupOf(p, (tids, counts)))
    modifies threads
    ensures threads.queue == [] && switches == Switches(p, (tids, counts))
    ensures bad <==> Invalid(p, ncs, start, valid.Elems(), (tids, counts))
  {
    var yielded;
    switches, yielded := threads.Run(p.init, tids, counts, p.shared);
    bad := false;
    if !yielded && switches == ncs {
      var hash := HashMem(shared, threads.mem, start);
      var found := valid.Lookup(hash);
      TrieSet.ElemsAlgebra(valid.Members, valid.Members, hash);
      bad := found == 0;
    }
  }

  /** The end of an iteration: the next counts, or the next ordering with all counts one. */
  method AdvanceProbe(tids: array<nat>, instrNums: array<nat>, n: nat, switches: nat) returns (done: bool)
    requires tids.Length >= 1 && InRange(tids[..], n) && switches <= instrNums.Length && tids != instrNums
    modifies tids, instrNums
    ensures switches > 0 ==> !done && tids[..] == old(tids[..]) && instrNums[..] == Advance(old(instrNums[..]), switches)
    ensures switches == 0 && !done ==> IsNext(old(tids[..]), tids[..], n) && instrNums[..] == Ones(instrNums.Length)
    ensures switches == 0 && done ==> IsLast(old(tids[..]), n)
  {
    hide IsNext, IsLast;
    done := false;
    if switches > 0 {
      AdvanceInPlace(instrNums, switches);
    } else {
      Reset(instrNums);
      var next := NextTid(tids, n);
      if !next { done := true; }
    }
  }

  // ---- the sweep as the list of its probes ----

  /** The rule of the loop: the probe that follows x, which has run to the end, is y. */
  ghost predicate NextProbe<L>(p: Problem<L>, ncs: nat, x: Probe, y: Probe) {
    && Finishes(SetupOf(p, x)) && Switches(p, x) <= |x.1|
    && (if Switches(p, x) > 0 then y == (x.0, Advance(x.1, Switches(p, x)))
        else IsNext(x.0, y.0, |p.progs|) && y.1 == Ones(ncs))
  }

  /** Probes made by the loop, one after the other from the first. */
  ghost predicate SweepSoFar<L>(p: Problem<L>, ncs: nat, xs: seq<Probe>) {
    && (xs != [] ==> IsNext(Ones(ncs + 1), xs[0].0, |p.progs|) && xs[0].1 == Ones(ncs))
    && forall j :: 0 <= j < |xs| - 1 ==> NextProbe(p, ncs, xs[j], xs[j + 1])
  }

  ghost predicate LastProbe<L>(p: Problem<L>, x: Probe) {
    Finishes(SetupOf(p, x)) && Switches(p, x) == 0 && IsLast(x.0, |p.progs|)
  }

  /** All probes of a loop that ends. */
  ghost predicate FinishedSweep<L>(p: Problem<L>, ncs: nat, xs: seq<Probe>) {
    xs != [] && SweepSoFar(p, ncs, xs) && LastProbe(p, xs[|xs| - 1])
  }

  lemma OneMoreProbe<L>(p: Problem<L>, ncs: nat, visited: seq<Probe>, x: Probe, y: Probe)
    requires SweepSoFar(p, ncs, visited + [x]) && NextProbe(p, ncs, x, y)
    ensures SweepSoFar(p, ncs, (visited + [x]) + [y])
  {
    hide NextProbe, IsNext;
    var xs := visited + [x];
    var ys := xs + [y];
    assert ys[0] == xs[0];
    forall j | 0 <= j < |ys| - 1
      ensures NextProbe(p, ncs, ys[j], ys[j + 1])
    {
      assert j < |xs| - 1 ==> NextProbe(p, ncs, xs[j], xs[j + 1]);
    }
  }

  lemma FirstProbe<L>(p: Problem<L>, ncs: nat, t: seq<nat>)
    requires IsNext(Ones(ncs + 1), t, |p.progs|)
    ensures SweepSoFar(p, ncs, [] + [(t, Ones(ncs))])
  {
  }

  /** What holds of the probe a sweep is about to make: the k-th ordering, and counts it will not exceed. */
  ghost predicate Probing<L>(p: Problem<L>, ncs: nat, top: nat, visited: seq<Probe>, k: nat, x: Probe)
    requires ncs >= 1
  {
    && k < |Orderings(|p.progs|, ncs + 1)| && x.0 == Orderings(|p.progs|, ncs + 1)[k]
    && IsSchedule(p, ncs, x) && Within(x.1, top + 1) && Swept(p, ncs, visited, x)
  }

  ghost function OrderingsLeft<L>(p: Problem<L>, ncs: nat, k: nat): int {
    |Orderings(|p.progs|, ncs + 1)| - k
  }

  lemma ProbingReady<L>(p: Problem<L>, ncs: nat, top: nat, visited: seq<Probe>, k: nat, x: Probe)
    requires ncs >= 1 && Tame(p, ncs, top) && Probing(p, ncs, top, visited, k, x)
    ensures OrderingsLeft(p, ncs, k) > 0 && Left(x.1, top + 1) >= 0
    ensures IsSchedule(p, ncs, x) && InRange(x.0, |p.progs|) && Finishes(SetupOf(p, x)) && Switches(p, x) <= |x.1|
    ensures Swept(p, ncs, visited, x)
  {
    hide Swept;
    LeftBounds(x.1, top + 1);
    SwitchesBounded(p, ncs, top, x);
  }

  lemma ProbingBegin<L>(p: Problem<L>, ncs: nat, top: nat, more: bool, t: seq<nat>)
    requires |p.progs| >= 2 && ncs >= 1
    requires more ==> IsNext(Ones(ncs + 1), t, |p.progs|)
    requires !more ==> IsLast(Ones(ncs + 1), |p.progs|)
    ensures Probing(p, ncs, top, [], 0, (t, Ones(ncs))) && IsNext(Ones(ncs + 1), t, |p.progs|)
  {
    hide Orderings, IsNext, Swept, Alternating;
    FirstNext(|p.progs|, ncs, more, t);
    SweepBegin(p, ncs, t);
    assert Within(Ones(ncs), top + 1);
  }

  lemma ProbingCounts<L>(p: Problem<L>, ncs: nat, top: nat, visited: seq<Probe>, k: nat, x: Probe, c': seq<nat>)
    requires ncs >= 1 && Tame(p, ncs, top) && Probing(p, ncs, top, visited, k, x)
    requires Finishes(SetupOf(p, x))
    requires 0 < Switches(p, x) <= |x.1| && c' == Advance(x.1, Switches(p, x))
    ensures Probing(p, ncs, top, visited + [x], k, (x.0, c'))
    ensures Left(c', top + 1) < Left(x.1, top + 1)
  {
    hide Tame, Swept, Orderings;
    SwitchesBounded(p, ncs, top, x);
    assert SwitchesOf(p, ncs, top, x) == Switches(p, x);
    SweepCounts(p, ncs, top, visited, x);
    AdvanceIsGreater(x.1, Switches(p, x));
    LeftDecreases(x.1, c', top + 1);
  }

  lemma ProbingOrdering<L>(p: Problem<L>, ncs: nat, top: nat, visited: seq<Probe>, k: nat, x: Probe, t': seq<nat>)
    requires ncs >= 1 && Tame(p, ncs, top) && Probing(p, ncs, top, visited, k, x)
    requires Finishes(SetupOf(p, x)) && Switches(p, x) == 0 && IsNext(x.0, t', |p.progs|)
    ensures Probing(p, ncs, top, visited + [x], k + 1, (t', Ones(ncs)))
  {
    hide Tame, Swept, Orderings;
    SwitchesBounded(p, ncs, top, x);
    assert SwitchesOf(p, ncs, top, x) == Switches(p, x);
    SweepOrdering(p, ncs, top, visited, x, t');
    NextIsSuccessor(|p.progs|, ncs + 1, k);
  }

  /** `run_interleavings`. The reports are the schedules for which "Invalid memory state detected" is printed. */
  method RunInterleavings<L>(threads: Threads<L>, p: Problem<L>, shared: TrieSet.Node, valid: TrieSet.Node,
          start: Lanes, ncs: nat)
    returns (reports: seq<Probe>, ghost visited: seq<Probe>)
    requires threads.progs == p.progs && threads.queue == [] && |p.progs| >= 2 && ncs >= 1
    requires shared.Valid() && shared.offset == TrieSet.MAX_OFFSET && shared.Elems() == p.shared
    requires valid.Valid() && valid.offset == TrieSet.MAX_OFFSET
    requires HasBound(p, ncs)
    modifies threads
    ensures threads.queue == []
    ensures FinishedSweep(p, ncs, visited) && SweptAll(p, ncs, visited)
    ensures reports == InvalidAmong(p, ncs, start, valid.Elems(), visited)
  {
    hide Tame, Swept, SweptAll, SweepSoFar, Invalid, Finishes, Switches, SetupOf, Orderings;
    hide HasBound, Advance, Less, Left, IsNext, IsLast, IsSchedule, Probing, TrieSet.Node.Valid;
    ghost var top := TakeBound(p, ncs);
    var n := |p.progs|;
    var tids := new nat[ncs + 1](i => 1);
    var instrNums := new nat[ncs](i => 1);
    assert tids[..] == Ones(ncs + 1) && instrNums[..] == Ones(ncs);
    var more := NextTid(tids, n);
    ProbingBegin(p, ncs, top, more, tids[..]);
    FirstProbe(p, ncs, tids[..]);
    reports, visited := [], [];
    ghost var k := 0;
    var done := false;
    while !done
      invariant fresh(tids) && fresh(instrNums) && tids.Length == ncs + 1 && instrNums.Length == ncs && threads.queue == []
      invariant !done ==> Probing(p, ncs, top, visited, k, (tids[..], instrNums[..]))
      invariant !done ==> SweepSoFar(p, ncs, visited + [(tids[..], instrNums[..])])
      invariant done ==> FinishedSweep(p, ncs, visited) && SweptAll(p, ncs, visited)
      invariant reports == InvalidAmong(p, ncs, start, valid.Elems(), visited)
      decreases !done, OrderingsLeft(p, ncs, k), Left(instrNums[..], top + 1)
    {
      ghost var x := (tids[..], instrNums[..]);
      ProbingReady(p, ncs, top, visited, k, x);
      var switches, bad := RunOne(threads, p, shared, valid, start, ncs, tids[..], instrNums[..]);
      if bad {
        reports := reports + [(tids[..], instrNums[..])];
      }
      done := AdvanceProbe(tids, instrNums, n, switches);
      if done {
        SweepEnd(p, ncs, top, visited, x);
      } else {
        OneMoreProbe(p, ncs, visited, x, (tids[..], instrNums[..]));
        if switches > 0 {
          ProbingCounts(p, ncs, top, visited, k, x, instrNums[..]);
        } else {
          ProbingOrdering(p, ncs, top, visited, k, x, tids[..]);
          k := k + 1;
        }
      }
      assert (visited + [x])[..|visited|] == visited;
      visited := visited + [x];
    }
  }

  /** With two or more functions the first `next_tid` finds an ordering. */
  lemma FirstNext(n: nat, ncs: nat, more: bool, t: seq<nat>)
    requires n >= 2 && ncs >= 1
    requires more ==> IsNext(Ones(ncs + 1), t, n)
    requires !more ==> IsLast(Ones(ncs + 1), n)
    ensures more && IsNext(Ones(ncs + 1), t, n) && |Orderings(n, ncs + 1)| > 0 && t == Orderings(n, ncs + 1)[0]
  {
    if more {
      FirstOrdering(n, ncs, t);
    } else {
      var alt := seq(ncs + 1, i => 1 + i % 2);
      assert Alternating(alt);
      ValOnes(ncs + 1, n);
      ValBounds(alt, n);
      assert alt[1] != Ones(ncs + 1)[1];
      if Val(alt, n) == 0 {
        ValInjective(alt, Ones(ncs + 1), n);
      }
    }
  }
}
