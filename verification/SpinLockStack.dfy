/** equiv-checker-util.h and 9-stack.c: pops of a shared stack under a spin lock, by any number of threads
    interleaved at every access. The compare-and-swap is one atomic step. */
module SpinLockStack {
  const UNLOCKED := 0
  const LOCKED := 1
  const MAX_STACK_SIZE := 100

  /** What the lock protects: the stack and the cell that receives the popped value. */
  datatype Store = Store(data: seq<int>, top: int, cell: int)

  // ---- the stack as one thread uses it ----

  datatype Answer = Popped(r: int) | Waiting

  class AtomicStack {
    const data: array<int>
    var top: int
    var lock: int
    var cell: int  // *global_value

    ghost predicate Valid()
      reads this
    {
      data.Length == MAX_STACK_SIZE && -1 <= top < data.Length
    }

    ghost function Contents(): Store
      reads this, data
    {
      Store(data[..], top, cell)
    }

    /** init_memory: stack_init, vibe_init and the cell. */
    constructor ()
      ensures Valid() && Contents() == InitialStore() && lock == UNLOCKED
    {
      data := new int[MAX_STACK_SIZE];
      top, lock, cell := -1, UNLOCKED, 0;
      new;
      for i := 0 to MAX_STACK_SIZE
        invariant top == i - 1 && lock == UNLOCKED && cell == 0 && forall j :: 0 <= j < i ==> data[j] == j
      {
        top := top + 1;
        data[top] := i;
      }
    }

    /** stack_pop, up to the yield of secure_vibes if somebody else holds the lock. The call comes back to the
        compare-and-swap after it, so one that waits has done nothing yet, and one that does not wait is one pop. */
    method StackPop() returns (a: Answer)
      requires Valid()
      modifies this`top, this`lock, this`cell
      ensures Valid() && lock == old(lock)
      ensures a == Waiting <==> old(lock) != UNLOCKED
      ensures a == Waiting ==> Contents() == old(Contents())
      ensures a != Waiting ==> (Contents(), a.r) == Pop(old(Contents()))
    {
      if lock != UNLOCKED { return Waiting; }
      lock := LOCKED;
      if top < 0 {
        lock := UNLOCKED;
        return Popped(-1);
      }
      cell := data[top];
      top := top - 1;
      lock := UNLOCKED;
      return Popped(0);
    }
  }

  function InitialStore(): Store {
    Store(seq(MAX_STACK_SIZE, i => i), MAX_STACK_SIZE - 1, 0)
  }

  /** One pop on its own: the new store, and what stack_pop returns. */
  function Pop(s: Store): (Store, int)
    requires s.top < |s.data|
  {
    if s.top < 0 then (s, -1) else (s.(top := s.top - 1, cell := s.data[s.top]), 0)
  }

  /** The store after n pops one after the other. */
  function Pops(s: Store, n: nat): (r: Store)
    requires s.top < |s.data|
    ensures r.data == s.data && r.top < |s.data|
  {
    if n == 0 then s else Pop(Pops(s, n - 1)).0
  }

  /** What the i-th of them returns. */
  function PopResult(s: Store, i: nat): int
    requires s.top < |s.data|
  {
    Pop(Pops(s, i)).1
  }

  /** In closed form: values leave from the top down until the stack is empty, and then every pop fails. */
  lemma {:induction false} PopsAre(s: Store, n: nat)
    requires 0 <= s.top < |s.data|
    ensures Pops(s, n).top == if n <= s.top + 1 then s.top - n else -1
    ensures Pops(s, n).cell == if n == 0 then s.cell else if n <= s.top + 1 then s.data[s.top + 1 - n] else s.data[0]
    ensures PopResult(s, n) == if n <= s.top then 0 else -1
  {
    if n > 0 {
      PopsAre(s, n - 1);
    }
  }

  // ---- all threads, access by access ----

  /** Where a thread is within stack_pop; the parameters are its registers. */
  datatype Pc =
    | Idle
    | Swap               // secure_vibes: the compare-and-swap, retried after a yield
    | Test               // stack->top < 0 ?
    | LoadTop            // *global_value = stack->data[stack->top]
    | LoadData(t: int)
    | StoreCell(v: int)
    | LoadTopAgain       // stack->top -= 1
    | StoreTop(t: int)
    | Release(r: int)    // release_vibes, and the value returned

  /** acquired: who took the lock, in order; returned: what the finished pops returned, in order. */
  datatype State = State(store: Store, lock: int, pcs: seq<Pc>, acquired: seq<nat>, returned: seq<(nat, int)>)

  predicate Critical(pc: Pc) {
    !pc.Idle? && !pc.Swap?
  }

  function At(s: State, t: nat, pc: Pc): State
    requires t < |s.pcs|
  {
    s.(pcs := s.pcs[t := pc])
  }

  /** Thread t makes its next access (or begins a call). */
  function Step(s: State, t: nat): State
    requires t < |s.pcs|
  {
    var store := s.store;
    match s.pcs[t]
    case Idle => At(s, t, Swap)
    case Swap =>
      if s.lock == UNLOCKED then At(s, t, Test).(lock := LOCKED, acquired := s.acquired + [t])
      else s  // sys_equiv_yield, and again
    case Test => At(s, t, if store.top < 0 then Release(-1) else LoadTop)
    case LoadTop => At(s, t, LoadData(store.top))
    case LoadData(top) => At(s, t, StoreCell(if 0 <= top < |store.data| then store.data[top] else 0))
    case StoreCell(v) => At(s, t, LoadTopAgain).(store := store.(cell := v))
    case LoadTopAgain => At(s, t, StoreTop(store.top - 1))
    case StoreTop(top) => At(s, t, Release(0)).(store := store.(top := top))
    case Release(r) => At(s, t, Idle).(lock := UNLOCKED, returned := s.returned + [(t, r)])
  }

  function Initial(store: Store, threads: nat): State {
    State(store, UNLOCKED, seq(threads, i => Idle), [], [])
  }

  /** The schedule names who moves at each step. */
  function Run(store: Store, threads: nat, schedule: seq<nat>): (s: State)
    requires forall i :: 0 <= i < |schedule| ==> schedule[i] < threads
    ensures |s.pcs| == threads
  {
    if schedule == [] then Initial(store, threads)
    else Step(Run(store, threads, schedule[..|schedule| - 1]), schedule[|schedule| - 1])
  }

  /** How far the pop of the lock holder has come from the store before it. */
  ghost predicate Midway(pc: Pc, before: Store, now: Store)
    requires before.top < |before.data|
  {
    match pc
    case Test => now == before
    case LoadTop => now == before && before.top >= 0
    case LoadData(t) => now == before && before.top >= 0 && t == before.top
    case StoreCell(v) => now == before && before.top >= 0 && v == before.data[before.top]
    case LoadTopAgain => before.top >= 0 && now == before.(cell := before.data[before.top])
    case StoreTop(t) => before.top >= 0 && now == before.(cell := before.data[before.top]) && t == before.top - 1
    case Release(r) => (now, r) == Pop(before)
    case _ => false
  }

  ghost predicate Inv(init: Store, s: State)
    requires init.top < |init.data|
  {
    && |s.returned| <= |s.acquired| && (forall i :: 0 <= i < |s.acquired| ==> s.acquired[i] < |s.pcs|)
    && (forall i :: 0 <= i < |s.returned| ==> s.returned[i] == (s.acquired[i], PopResult(init, i)))
    && (s.lock == UNLOCKED ==>
          |s.returned| == |s.acquired| && s.store == Pops(init, |s.acquired|) && forall t :: 0 <= t < |s.pcs| ==> !Critical(s.pcs[t]))
    && (s.lock != UNLOCKED ==>
          && s.lock == LOCKED && |s.acquired| == |s.returned| + 1
          && (forall t :: 0 <= t < |s.pcs| ==> (Critical(s.pcs[t]) <==> t == s.acquired[|s.returned|]))
          && Midway(s.pcs[s.acquired[|s.returned|]], Pops(init, |s.returned|), s.store))
  }

  lemma SwapInv(init: Store, s: State, t: nat)
    requires init.top < |init.data| && Inv(init, s) && t < |s.pcs| && s.pcs[t].Swap?
    ensures Inv(init, Step(s, t))
  {
    hide Pops, PopResult, Pop;
  }

  lemma ReleaseInv(init: Store, s: State, t: nat)
    requires init.top < |init.data| && Inv(init, s) && t < |s.pcs| && s.pcs[t].Release?
    ensures Inv(init, Step(s, t))
  {
    var n := |s.returned|;
    assert Critical(s.pcs[t]);
    assert Pops(init, n + 1) == Pop(Pops(init, n)).0 && PopResult(init, n) == Pop(Pops(init, n)).1;
  }

  lemma StepInv(init: Store, s: State, t: nat)
    requires init.top < |init.data| && Inv(init, s) && t < |s.pcs|
    ensures Inv(init, Step(s, t))
  {
    hide Pops, PopResult;
    if s.pcs[t].Swap? {
      SwapInv(init, s, t);
    } else if s.pcs[t].Release? {
      ReleaseInv(init, s, t);
    } else {
      assert Critical(s.pcs[t]) ==> t == s.acquired[|s.returned|];
    }
  }

  lemma {:induction false} RunInv(init: Store, threads: nat, schedule: seq<nat>)
    requires init.top < |init.data| && forall i :: 0 <= i < |schedule| ==> schedule[i] < threads
    ensures Inv(init, Run(init, threads, schedule))
  {
    if schedule != [] {
      RunInv(init, threads, schedule[..|schedule| - 1]);
      StepInv(init, Run(init, threads, schedule[..|schedule| - 1]), schedule[|schedule| - 1]);
    }
  }

  /** In every interleaving at most one thread is between a successful secure_vibes and its release_vibes. */
  lemma MutualExclusion(init: Store, threads: nat, schedule: seq<nat>, t: nat, u: nat)
    requires init.top < |init.data| && t < threads && u < threads && forall i :: 0 <= i < |schedule| ==> schedule[i] < threads
    ensures var s := Run(init, threads, schedule);
      && (Critical(s.pcs[t]) && Critical(s.pcs[u]) ==> t == u)
      && (Critical(s.pcs[t]) ==> s.lock == LOCKED && |s.acquired| > 0 && t == s.acquired[|s.acquired| - 1])
  {
    RunInv(init, threads, schedule);
  }

  /** Whatever the interleaving, the pops take effect one after the other in the order in which the lock was acquired. */
  lemma PopsAreSerial(init: Store, threads: nat, schedule: seq<nat>)
    requires init.top < |init.data| && forall i :: 0 <= i < |schedule| ==> schedule[i] < threads
    ensures var s := Run(init, threads, schedule);
      && |s.acquired| - 1 <= |s.returned| <= |s.acquired|
      && (forall i :: 0 <= i < |s.returned| ==> s.returned[i] == (s.acquired[i], PopResult(init, i)))
      && (s.lock == UNLOCKED ==> |s.returned| == |s.acquired| && s.store == Pops(init, |s.acquired|))
  {
    RunInv(init, threads, schedule);
  }

  // ---- no call is dropped ----

  /** How many calls thread t has begun. */
  ghost function Begun(store: Store, threads: nat, schedule: seq<nat>, t: nat): nat
    requires t < threads && forall i :: 0 <= i < |schedule| ==> schedule[i] < threads
  {
    if schedule == [] then 0
    else
      var before := schedule[..|schedule| - 1];
      var begins := schedule[|schedule| - 1] == t && Run(store, threads, before).pcs[t].Idle?;
      Begun(store, threads, before, t) + if begins then 1 else 0
  }

  /** How many of its calls have returned. */
  function ReturnedTo(returned: seq<(nat, int)>, t: nat): nat {
    if returned == [] then 0
    else ReturnedTo(returned[..|returned| - 1], t) + if returned[|returned| - 1].0 == t then 1 else 0
  }

  lemma ReturnedMore(returned: seq<(nat, int)>, u: nat, r: int, t: nat)
    ensures ReturnedTo(returned + [(u, r)], t) == ReturnedTo(returned, t) + if u == t then 1 else 0
  {
    assert (returned + [(u, r)])[..|returned|] == returned;
  }

  lemma StepCalls(s: State, u: nat, t: nat)
    requires u < |s.pcs| && t < |s.pcs|
    ensures var s' := Step(s, u); var open, open' := if s.pcs[t].Idle? then 0 else 1, if s'.pcs[t].Idle? then 0 else 1;
      ReturnedTo(s'.returned, t) + open' == ReturnedTo(s.returned, t) + open + if u == t && s.pcs[t].Idle? then 1 else 0
  {
    if s.pcs[u].Release? {
      ReturnedMore(s.returned, u, s.pcs[u].r, t);
    }
  }

  /** However often its compare-and-swap fails, a call that a thread has begun is not dropped: it is still going on, or it
      has returned. */
  lemma {:induction false} CallsReturn(store: Store, threads: nat, schedule: seq<nat>, t: nat)
    requires t < threads && forall i :: 0 <= i < |schedule| ==> schedule[i] < threads
    ensures var s := Run(store, threads, schedule);
      Begun(store, threads, schedule, t) == ReturnedTo(s.returned, t) + if s.pcs[t].Idle? then 0 else 1
  {
    hide Step;
    if schedule != [] {
      var before := schedule[..|schedule| - 1];
      CallsReturn(store, threads, before, t);
      StepCalls(Run(store, threads, before), schedule[|schedule| - 1], t);
    }
  }
}
