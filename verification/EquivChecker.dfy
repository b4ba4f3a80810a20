/** equiv-checker.c and `find_good_hashes`: serial outcomes first, then every interleaving of 1..ncs switches. */
module EquivChecker {
  import opened Words
  import opened Machine
  import opened Scheduler
  import opened Interleaver
  import opened Permutations
  import opened XXHash32
  import opened MemoryHash
  import opened SerialRuns
  import opened EarlyStops
  import opened TouchBounds
  import TrieSet

  /** The hash of some serial execution's memory. */
  ghost predicate SerialHash<L>(p: Problem<L>, start: Lanes, h: int) {
    exists order: seq<int> :: IsSerialOrder(order, |p.progs|) && HashAfter(p, start, order, h)
  }

  ghost predicate HashAfter<L>(p: Problem<L>, start: Lanes, order: seq<int>, h: int) {
    && OfWords(p.shared) && SerialReturns(p.progs, order, p.init)
    && h == HashOf(start, p.shared, SerialMemory(p.progs, order, p.init))
  }

  /** The inner loop of `find_good_hashes`: one permutation, from the initial memory. */
  method RunSerial<L>(p: Problem<L>, itl: array2<int>, i: nat) returns (mem: Memory)
    requires i < itl.Length0 && SerialReturns(p.progs, Row(itl, i), p.init)
    ensures mem == SerialMemory(p.progs, Row(itl, i), p.init)
  {
    ghost var order := Row(itl, i);
    mem := p.init;
    for j := 0 to itl.Length1
      invariant SerialReturns(p.progs, order[j..], mem)
      invariant SerialMemory(p.progs, order[j..], mem) == SerialMemory(p.progs, order, p.init)
    {
      assert order[j..][1..] == order[j + 1..];
      mem := Call(p.progs[itl[i, j]], mem);
    }
  }

  /** The hash after one of the first k listed orders. */
  ghost predicate AmongFirst<L>(p: Problem<L>, start: Lanes, itl: array2<int>, k: nat, h: int)
    requires k <= itl.Length0
    reads itl
  {
    exists i :: 0 <= i < k && HashAfter(p, start, Row(itl, i), h)
  }

  lemma OneMoreOrder<L>(p: Problem<L>, start: Lanes, itl: array2<int>, k: nat, h: int)
    requires k < itl.Length0
    ensures AmongFirst(p, start, itl, k + 1, h) <==> AmongFirst(p, start, itl, k, h) || HashAfter(p, start, Row(itl, k), h)
  {
    hide HashAfter, Row;
  }

  /** `find_good_hashes`: the set gains the hash of each listed order, and nothing else. */
  method FindGoodHashes<L>(p: Problem<L>, itl: array2<int>, shared: TrieSet.Node, valid: TrieSet.Node, start: Lanes)
    requires shared.Valid() && shared.offset == TrieSet.MAX_OFFSET && shared.Elems() == p.shared
    requires valid.Valid() && valid.offset == TrieSet.MAX_OFFSET && shared.Repr !! valid.Repr
    requires forall i :: 0 <= i < itl.Length0 ==> SerialReturns(p.progs, Row(itl, i), p.init)
    modifies valid.Repr
    ensures valid.Valid() && valid.offset == TrieSet.MAX_OFFSET && fresh(valid.Repr - old(valid.Repr))
    ensures OfWords(p.shared)
    ensures forall h :: h in valid.Elems() <==>
      h in old(valid.Elems()) || AmongFirst(p, start, itl, itl.Length0, h)
  {
    hide SerialReturns, SerialMemory, HashOf;
    for i := 0 to itl.Length0
      invariant valid.Valid() && valid.offset == TrieSet.MAX_OFFSET && fresh(valid.Repr - old(valid.Repr))
      invariant shared.Valid() && shared.offset == TrieSet.MAX_OFFSET && shared.Elems() == p.shared
      invariant shared.Repr == old(shared.Repr) && shared.Repr !! valid.Repr
      invariant forall h :: h in valid.Elems() <==>
        h in old(valid.Elems()) || AmongFirst(p, start, itl, i, h)
    {
      var mem := RunSerial(p, itl, i);
      var hash := HashMem(shared, mem, start);
      ghost var before := valid.Members;
      var present := valid.Insert(hash);
      TrieSet.ElemsAlgebra(before, before, hash);
      assert forall h :: HashAfter(p, start, Row(itl, i), h) <==> h == hash;
      hide HashAfter, Row, AmongFirst;
      forall h
        ensures h in valid.Elems() <==> h in old(valid.Elems()) || AmongFirst(p, start, itl, i + 1, h)
      {
        OneMoreOrder(p, start, itl, i, h);
      }
    }
  }

  // ---- the checker ----

  /** A schedule completes all its switches without yielding, and its final memory hashes like no serial execution's. */
  ghost predicate Violates<L>(p: Problem<L>, ncs: nat, start: Lanes, x: Probe) {
    && Completes(p, ncs, x) && OfWords(p.shared) && !Final(SetupOf(p, x)).yielded
    && !SerialHash(p, start, HashOf(start, p.shared, Final(SetupOf(p, x)).mem))
  }

  /** The shared bytes of two memories differ at exactly one address. */
  ghost predicate OneApart(shared: set<Word>, m: Memory, m': Memory) {
    exists x: Word :: x in shared && m(x) != m'(x) && forall y: Word :: y in shared && y != x ==> m(y) == m'(y)
  }

  /** No false alarm: a schedule that leaves the shared bytes as some serial execution does is not a violation. */
  lemma SerialOutcomeIsNoViolation<L>(p: Problem<L>, ncs: nat, start: Lanes, x: Probe, order: seq<int>)
    requires Finishes(SetupOf(p, x)) && IsSerialOrder(order, |p.progs|) && SerialReturns(p.progs, order, p.init)
    requires forall a: Word :: a in p.shared ==> Final(SetupOf(p, x)).mem(a) == SerialMemory(p.progs, order, p.init)(a)
    ensures !Violates(p, ncs, start, x)
  {
    hide Finishes, IsSerialOrder, SerialReturns, SerialMemory, HashOf;
    if OfWords(p.shared) {
      var mem := Final(SetupOf(p, x)).mem;
      HashOfAgrees(start, p.shared, mem, SerialMemory(p.progs, order, p.init));
      assert HashAfter(p, start, order, HashOf(start, p.shared, mem));
    }
  }

  /** No miss: a completing schedule whose outcome differs from each serial one in a single shared byte is a violation. */
  lemma OneByteIsViolation<L>(p: Problem<L>, ncs: nat, start: Lanes, x: Probe)
    requires Completes(p, ncs, x) && !Final(SetupOf(p, x)).yielded && OfWords(p.shared)
    requires forall order :: IsSerialOrder(order, |p.progs|) && SerialReturns(p.progs, order, p.init) ==>
      OneApart(p.shared, Final(SetupOf(p, x)).mem, SerialMemory(p.progs, order, p.init))
    ensures Violates(p, ncs, start, x)
  {
    hide Finishes, IsSerialOrder, SerialReturns, SerialMemory, HashOf, IsSchedule;
    var mem := Final(SetupOf(p, x)).mem;
    forall order: seq<int> | IsSerialOrder(order, |p.progs|) && SerialReturns(p.progs, order, p.init)
      ensures HashOf(start, p.shared, mem) != HashOf(start, p.shared, SerialMemory(p.progs, order, p.init))
    {
      var serial := SerialMemory(p.progs, order, p.init);
      var a: Word :| a in p.shared && mem(a) != serial(a) && forall y: Word :: y in p.shared && y != a ==> mem(y) == serial(y);
      OneAddressMatters(start, p.shared, mem, serial, a);
    }
  }

  /** What the checker is for: whatever interleaving of up to ncs switches happens, some serial order hashes the same. */
  ghost predicate EquivalentToSerial<L>(p: Problem<L>, ncs: nat, start: Lanes) {
    forall i, x :: 1 <= i <= ncs ==> !Violates(p, i, start, x)
  }

  /** The reports of all sweeps: the violations of each switch count, in the order of the sweep. */
  ghost predicate ReportsViolations<L>(p: Problem<L>, ncs: nat, start: Lanes, reports: seq<seq<Probe>>) {
    && |reports| == ncs
    && (forall i :: 0 <= i < ncs ==> InOrder(|p.progs|, reports[i]))
    && (forall i, x :: 0 <= i < ncs ==> (x in reports[i] <==> Violates(p, i + 1, start, x)))
  }

  lemma NoReportsExact<L>(p: Problem<L>, ncs: nat, start: Lanes, reports: seq<seq<Probe>>)
    requires ReportsViolations(p, ncs, start, reports)
    ensures (forall i :: 0 <= i < ncs ==> reports[i] == []) <==> EquivalentToSerial(p, ncs, start)
  {
    hide Violates;
    if forall i :: 0 <= i < ncs ==> reports[i] == [] {
      forall i, x | 1 <= i <= ncs
        ensures !Violates(p, i, start, x)
      {
        assert reports[i - 1] == [];
        assert x !in reports[i - 1];
      }
    }
    forall i | 0 <= i < ncs && reports[i] != []
      ensures !EquivalentToSerial(p, ncs, start)
    {
      assert reports[i][0] in reports[i];
      assert Violates(p, i + 1, start, reports[i][0]);
    }
  }

  /** The same for all schedules, whether or not they complete their switches. */
  ghost predicate AlwaysSerial<L>(p: Problem<L>, ncs: nat, start: Lanes)
    requires OfWords(p.shared)
  {
    forall i, x :: 1 <= i <= ncs && IsSchedule(p, i, x) ==> EndsSerially(p, start, x)
  }

  ghost predicate EndsSerially<L>(p: Problem<L>, start: Lanes, x: Probe)
    requires OfWords(p.shared)
  {
    var s := SetupOf(p, x);
    Finishes(s) && !Final(s).yielded ==> SerialHash(p, start, HashOf(start, p.shared, Final(s).mem))
  }

  /** A schedule that completes no switch at all ends as a serial execution does. */
  lemma NoSwitchEndsSerially<L>(p: Problem<L>, ncs: nat, start: Lanes, x: Probe)
    requires OfWords(p.shared) && AllSerialReturn(p) && IsSchedule(p, ncs, x)
    requires Finishes(SetupOf(p, x)) && Switches(p, x) == 0
    ensures EndsSerially(p, start, x)
  {
    hide SerialReturns, SerialMemory, HashOf, IsSerialOrder;
    var s := SetupOf(p, x);
    TruncationKeepsResult(s);
    var s0 := Truncated(s, 0);
    UninterruptedOrderIsSerial(s0.N(), s0.tids[0]);
    NoSwitchesIsSerial(s0);
    var order := UninterruptedOrder(s0.N(), s0.tids[0]);
    assert HashAfter(p, start, order, HashOf(start, p.shared, Final(s).mem));
  }

  /** A schedule that stops after k switches ends as the schedule of those k switches, which completes. */
  lemma StoppedEndsSerially<L>(p: Problem<L>, ncs: nat, start: Lanes, i: nat, x: Probe)
    requires OfWords(p.shared) && EquivalentToSerial(p, ncs, start) && 1 <= i <= ncs && IsSchedule(p, i, x)
    requires Finishes(SetupOf(p, x)) && Switches(p, x) > 0
    ensures EndsSerially(p, start, x)
  {
    hide SerialHash, HashOf;
    var s := SetupOf(p, x);
    var k := Switches(p, x);
    TruncationKeepsResult(s);
    var x' := (x.0[..k + 1], x.1[..k]);
    assert SetupOf(p, x') == Truncated(s, k);
    assert !Violates(p, k, start, x');
  }

  /** Judging only the schedules that complete is enough: those that stop early end like shorter ones, or serially. */
  lemma CompletedSchedulesSuffice<L>(p: Problem<L>, ncs: nat, start: Lanes)
    requires OfWords(p.shared) && AllSerialReturn(p)
    ensures EquivalentToSerial(p, ncs, start) <==> AlwaysSerial(p, ncs, start)
  {
    hide SerialHash, HashOf, IsSchedule, AllSerialReturn;
    if EquivalentToSerial(p, ncs, start) {
      forall i, x | 1 <= i <= ncs && IsSchedule(p, i, x)
        ensures EndsSerially(p, start, x)
      {
        if Finishes(SetupOf(p, x)) {
          if Switches(p, x) == 0 {
            NoSwitchEndsSerially(p, i, start, x);
          } else {
            StoppedEndsSerially(p, ncs, start, i, x);
          }
        }
      }
    }
    if AlwaysSerial(p, ncs, start) {
      forall i, x | 1 <= i <= ncs
        ensures !Violates(p, i, start, x)
      {
        assert IsSchedule(p, i, x) ==> EndsSerially(p, start, x);
      }
    }
  }

  /** The valid hashes are those of the serial executions. */
  lemma GoodHashesAreSerial<L>(p: Problem<L>, start: Lanes, itl: array2<int>, h: int)
    requires |p.progs| >= 1 && itl.Length0 == |SerialOrders(|p.progs|)|
    requires forall r :: 0 <= r < itl.Length0 ==> Row(itl, r) == SerialOrders(|p.progs|)[r]
    ensures AmongFirst(p, start, itl, itl.Length0, h) <==> SerialHash(p, start, h)
  {
    hide HashAfter, IsSerialOrder;
    SerialOrdersExact(|p.progs|);
    var orders := SerialOrders(|p.progs|);
    hide SerialOrders, Row;
    if i :| 0 <= i < itl.Length0 && HashAfter(p, start, Row(itl, i), h) {
      assert orders[i] in orders;
    }
    if SerialHash(p, start, h) {
      var order: seq<int> :| IsSerialOrder(order, |p.progs|) && HashAfter(p, start, order, h);
      assert order in orders;
      var i :| 0 <= i < |orders| && orders[i] == order;
      assert HashAfter(p, start, Row(itl, i), h);
    }
  }

  /** The set of the hashes of all serial executions. */
  method SerialHashes<L>(p: Problem<L>, shared: TrieSet.Node, start: Lanes) returns (valid: TrieSet.Node)
    requires |p.progs| >= 1 && AllSerialReturn(p)
    requires shared.Valid() && shared.offset == TrieSet.MAX_OFFSET && shared.Elems() == p.shared
    ensures valid.Valid() && valid.offset == TrieSet.MAX_OFFSET && fresh(valid.Repr)
    ensures OfWords(p.shared) && forall h :: h in valid.Elems() <==> SerialHash(p, start, h)
  {
    hide SerialReturns, HashAfter, SerialHash, SerialOrders, IsSerialOrder, Row;
    var itl := GetFuncPermutations(|p.progs|);
    SerialOrdersExact(|p.progs|);
    forall i | 0 <= i < itl.Length0
      ensures SerialReturns(p.progs, Row(itl, i), p.init)
    {
      assert SerialOrders(|p.progs|)[i] in SerialOrders(|p.progs|);
    }
    valid := new TrieSet.Node(TrieSet.MAX_OFFSET);
    assert valid.Elems() == {};
    FindGoodHashes(p, itl, shared, valid, start);
    forall h
      ensures h in valid.Elems() <==> SerialHash(p, start, h)
    {
      GoodHashesAreSerial(p, start, itl, h);
    }
  }

  lemma InvalidIsViolation<L>(p: Problem<L>, ncs: nat, start: Lanes, valid: set<int>, x: Probe)
    requires OfWords(p.shared) && forall h :: h in valid <==> SerialHash(p, start, h)
    ensures Invalid(p, ncs, start, valid, x) <==> Violates(p, ncs, start, x)
  {
    hide SerialHash, IsSchedule;
  }

  /** `equiv_checker_run`, for a shared memory already found. False is the failed assertion on ncs. */
  method CheckerRun<L>(p: Problem<L>, shared: TrieSet.Node, ncs: nat, start: Lanes)
    returns (ok: bool, reports: seq<seq<Probe>>)
    requires |p.progs| >= 2 && AllSerialReturn(p) && AllFinish(p, ncs)
    requires shared.Valid() && shared.offset == TrieSet.MAX_OFFSET && shared.Elems() == p.shared
    ensures ok <==> ncs > 0
    ensures ok ==> ReportsViolations(p, ncs, start, reports)
    ensures OfWords(p.shared)
    ensures ok ==> ((forall i :: 0 <= i < ncs ==> reports[i] == []) <==> AlwaysSerial(p, ncs, start))
  {
    hide HasBound, SweptAll, SerialHash, Violates, Invalid, AllSerialReturn, AllFinish, EquivalentToSerial, AlwaysSerial;
    AllHaveBounds(p, ncs);
    reports := [];
    if ncs == 0 { return false, reports; }
    var valid := SerialHashes(p, shared, start);
    for i := 1 to ncs + 1
      invariant ReportsViolations(p, i - 1, start, reports)
      invariant valid.Valid() && valid.offset == TrieSet.MAX_OFFSET
      invariant shared.Valid() && shared.offset == TrieSet.MAX_OFFSET && shared.Elems() == p.shared
      invariant forall h :: h in valid.Elems() <==> SerialHash(p, start, h)
    {
      var threads := new Threads(p.progs, p.init);
      var found, visited := RunInterleavings(threads, p, shared, valid, start, i);
      ReportsExact(p, i, start, valid.Elems(), visited);
      forall x
        ensures x in found <==> Violates(p, i, start, x)
      {
        InvalidIsViolation(p, i, start, valid.Elems(), x);
      }
      reports := reports + [found];
    }
    NoReportsExact(p, ncs, start, reports);
    CompletedSchedulesSuffice(p, ncs, start);
    ok := true;
  }
}
