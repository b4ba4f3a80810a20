/** 12-quantum-leap-rb.c: the ring buffer run by itself, and by one producer and one consumer
    interleaved at every load and store of the shared fields. */
module RingBuffer {
  import opened Words

  type Counter = c: int | 0 <= c < 0x1_0000
  type Elements = seq<Byte>

  /** The index after i, wrapping at the end of the buffer. */
  function Next(i: Counter, end: Counter): Counter {
    var n := (i + 1) % 0x1_0000;
    if n == end then 0 else n
  }

  lemma NextIs(i: Counter, end: Counter)
    requires i < end
    ensures Next(i, end) == if i + 1 == end then 0 else i + 1
  {
  }

  /** How many elements lie between tail and head. */
  function Count(tail: int, head: int, end: int): int {
    if tail <= head then head - tail else end - tail + head
  }

  function Wrap(i: int, end: int): int {
    if i >= end then i - end else i
  }

  /** The buffer read cyclically from tail to head. */
  function Window(buf: Elements, tail: Counter, head: Counter): (w: Elements)
    requires tail < |buf| && head < |buf|
    ensures |w| == Count(tail, head, |buf|) < |buf|
  {
    seq(Count(tail, head, |buf|), i requires 0 <= i < Count(tail, head, |buf|) => buf[Wrap(tail + i, |buf|)])
  }

  /** RingBuf_num_free, from the values it read. */
  function NumFree(head: Counter, tail: Counter, end: Counter): int {
    if head == tail then end - 1 else if head < tail then tail - head - 1 else end + tail - head - 1
  }

  lemma NumFreeIs(head: Counter, tail: Counter, end: Counter)
    requires head < end && tail < end
    ensures NumFree(head, tail, end) == end - 1 - Count(tail, head, end) >= 0
  {
  }

  lemma WindowAt(buf: Elements, tail: Counter, head: Counter, i: nat)
    requires tail < |buf| && head < |buf| && i < Count(tail, head, |buf|)
    ensures Window(buf, tail, head)[i] == buf[Wrap(tail + i, |buf|)]
  {
  }

  lemma WindowEmpty(buf: Elements, tail: Counter)
    requires tail < |buf|
    ensures Window(buf, tail, tail) == []
  {
  }

  /** Taking an element out moves the tail past it. */
  lemma WindowTail(buf: Elements, tail: Counter, head: Counter, end: Counter)
    requires end == |buf| && tail < end && head < end && tail != head
    ensures Next(tail, end) < end && Window(buf, tail, head) == [buf[tail]] + Window(buf, Next(tail, end), head)
  {
    var w, rest := Window(buf, tail, head), Window(buf, Next(tail, end), head);
    assert |w| == 1 + |rest|;
    forall i | 0 <= i < |w|
      ensures w[i] == ([buf[tail]] + rest)[i]
    {
      WindowAt(buf, tail, head, i);
      if i > 0 {
        WindowAt(buf, Next(tail, end), head, i - 1);
      }
    }
  }

  /** Moving the head publishes the element under it. */
  lemma WindowHead(buf: Elements, tail: Counter, head: Counter, end: Counter)
    requires end == |buf| && tail < end && head < end && Next(head, end) != tail
    ensures Next(head, end) < end && Window(buf, tail, Next(head, end)) == Window(buf, tail, head) + [buf[head]]
  {
    var w, w' := Window(buf, tail, head), Window(buf, tail, Next(head, end));
    assert |w'| == |w| + 1;
    assert Wrap(tail + |w|, end) == head;
  }

  /** The slot under the head is not among the unread ones. */
  lemma WindowUnwritten(buf: Elements, tail: Counter, head: Counter, el: Byte)
    requires tail < |buf| && head < |buf|
    ensures Window(buf[head := el], tail, head) == Window(buf, tail, head)
  {
    var w, w' := Window(buf, tail, head), Window(buf[head := el], tail, head);
    forall i | 0 <= i < |w|
      ensures w'[i] == w[i]
    {
      assert Wrap(tail + i, |buf|) != head;
    }
  }

  // ---- the buffer as one thread uses it ----

  class RingBuf {
    const buf: array<Byte>
    var end: Counter
    var head: Counter
    var tail: Counter

    ghost predicate Valid()
      reads this
    {
      1 <= end == buf.Length && head < end && tail < end
    }

    ghost function Contents(): Elements
      requires Valid()
      reads this, buf
    {
      Window(buf[..], tail, head)
    }

    /** RingBuf_ctor, whose size parameter has 16 bits. Storage of length 0 does not make a usable buffer. */
    constructor (sto: array<Byte>)
      requires sto.Length < 0x1_0000
      ensures buf == sto && end == sto.Length && head == 0 && tail == 0
      ensures Valid() <==> sto.Length >= 1
      ensures Valid() ==> Contents() == []
    {
      buf, end, head, tail := sto, sto.Length, 0, 0;
    }

    /** RingBuf_put. */
    method Put(el: Byte) returns (ok: bool)
      requires Valid()
      modifies this`head, buf
      ensures Valid() && (ok <==> |old(Contents())| < end - 1)
      ensures Contents() == if ok then old(Contents()) + [el] else old(Contents())
    {
      ghost var was := buf[..];
      var next: Counter := (head + 1) % 0x1_0000;
      if next == end {
        next := 0;
      }
      if next != tail {
        WindowUnwritten(was, tail, head, el);
        buf[head] := el;
        assert buf[..] == was[head := el];
        WindowHead(buf[..], tail, head, end);
        head := next;
        return true;
      }
      return false;
    }

    /** RingBuf_get. */
    method Get() returns (ok: bool, el: Byte)
      requires Valid()
      modifies this`tail
      ensures Valid() && (ok <==> old(Contents()) != [])
      ensures old(Contents()) == if ok then [el] + Contents() else Contents()
    {
      var t := tail;
      el := 0;
      if head != t {
        WindowTail(buf[..], tail, head, end);
        el := buf[t];
        t := (t + 1) % 0x1_0000;
        if t == end {
          t := 0;
        }
        tail := t;
        return true, el;
      }
      return false, el;
    }

    /** RingBuf_num_free. */
    method FreeSlots() returns (n: Counter)
      requires Valid()
      ensures n == end - 1 - |Contents()|
    {
      var h := head;
      var t := tail;
      NumFreeIs(h, t, end);
      n := NumFree(h, t, end);
    }

    /** RingBuf_process_all; handled lists the handler's calls. */
    method ProcessAll() returns (ghost handled: Elements)
      requires Valid()
      modifies this`tail
      ensures Valid() && handled == old(Contents()) && Contents() == []
    {
      hide Window, Next;
      handled := [];
      var t := tail;
      while head != t
        invariant Valid() && t == tail && head == old(head) && end == old(end)
        invariant handled + Contents() == old(Contents())
        decreases |Contents()|
      {
        WindowTail(buf[..], tail, head, end);
        handled := handled + [buf[t]];
        t := (t + 1) % 0x1_0000;
        if t == end {
          t := 0;
        }
        NextIs(tail, end);
        tail := t;
      }
      WindowEmpty(buf[..], tail);
    }
  }

  // ---- one producer and one consumer, step by step ----

  /** Where the producer is; the parameters are its local variables. */
  datatype Producer =
    | PIdle
    | PLoadHead(el: Byte)                                    // RingBuf_put: head = me->head + 1
    | PLoadTail(el: Byte, next: Counter)                     // head != me->tail ?
    | PLoadIndex(el: Byte, next: Counter)                    // me->buf[me->head]: the index
    | PStoreElement(el: Byte, next: Counter, index: Counter) // ... = el
    | PStoreHead(el: Byte, next: Counter)                    // me->head = head
    | PCountHead                                             // RingBuf_num_free
    | PCountTail(head: Counter)
    | PCounted(n: int)

  datatype Consumer =
    | CIdle
    | CLoadTail(all: bool)                                   // RingBuf_get, or RingBuf_process_all
    | CLoadHead(all: bool, tail: Counter)
    | CLoadElement(all: bool, tail: Counter)
    | CStoreTail(all: bool, tail: Counter, el: Byte)
    | CCountHead
    | CCountTail(head: Counter)
    | CCounted(n: int)

  /** The shared fields, both threads, and what was put (by calls that return true) and what was got (or handled). */
  datatype State = State(buf: Elements, end: Counter, head: Counter, tail: Counter, producer: Producer, consumer: Consumer,
                         published: Elements, consumed: Elements)

  /** Who moves; an idle thread begins the given call. */
  datatype Move = Put(el: Byte) | ProducerCounts | Get | ProcessAll | ConsumerCounts

  function ProducerStep(s: State, start: Producer): State
    requires s.head < |s.buf|
  {
    match s.producer
    case PIdle => s.(producer := start)
    case PLoadHead(el) => s.(producer := PLoadTail(el, Next(s.head, s.end)))
    case PLoadTail(el, next) => s.(producer := if next != s.tail then PLoadIndex(el, next) else PIdle)
    case PLoadIndex(el, next) => s.(producer := PStoreElement(el, next, s.head))
    case PStoreElement(el, next, index) =>
      if index < |s.buf| then s.(buf := s.buf[index as int := el], producer := PStoreHead(el, next)) else s
    case PStoreHead(el, next) => s.(head := next, producer := PIdle, published := s.published + [el])
    case PCountHead => s.(producer := PCountTail(s.head))
    case PCountTail(head) => s.(producer := PCounted(NumFree(head, s.tail, s.end)))
    case PCounted(_) => s.(producer := PIdle)
  }

  function ConsumerStep(s: State, start: Consumer): State {
    match s.consumer
    case CIdle => s.(consumer := start)
    case CLoadTail(all) => s.(consumer := CLoadHead(all, s.tail))
    case CLoadHead(all, tail) => s.(consumer := if s.head != tail then CLoadElement(all, tail) else CIdle)
    case CLoadElement(all, tail) =>
      if tail < |s.buf| then s.(consumer := CStoreTail(all, tail, s.buf[tail])) else s
    case CStoreTail(all, tail, el) =>
      var next := Next(tail, s.end);
      s.(tail := next, consumer := if all then CLoadHead(all, next) else CIdle, consumed := s.consumed + [el])
    case CCountHead => s.(consumer := CCountTail(s.head))
    case CCountTail(head) => s.(consumer := CCounted(NumFree(head, s.tail, s.end)))
    case CCounted(_) => s.(consumer := CIdle)
  }

  function Step(s: State, m: Move): State
    requires s.head < |s.buf|
  {
    match m
    case Put(el) => ProducerStep(s, PLoadHead(el))
    case ProducerCounts => ProducerStep(s, PCountHead)
    case Get => ConsumerStep(s, CLoadTail(false))
    case ProcessAll => ConsumerStep(s, CLoadTail(true))
    case ConsumerCounts => ConsumerStep(s, CCountHead)
  }

  /** How many slots are free at this moment. */
  function Free(s: State): int {
    s.end - 1 - Count(s.tail, s.head, s.end)
  }

  ghost predicate ProducerInv(s: State) {
    match s.producer
    case PIdle => true
    case PLoadHead(_) => true
    case PLoadTail(_, next) => next == Next(s.head, s.end)
    case PLoadIndex(_, next) => next == Next(s.head, s.end) && Free(s) > 0
    case PStoreElement(_, next, index) => next == Next(s.head, s.end) && Free(s) > 0 && index == s.head
    case PStoreHead(el, next) => next == Next(s.head, s.end) && Free(s) > 0 && s.head < |s.buf| && s.buf[s.head] == el
    case PCountHead => true
    case PCountTail(head) => head == s.head
    case PCounted(n) => n <= Free(s)
  }

  ghost predicate ConsumerInv(s: State) {
    match s.consumer
    case CIdle => true
    case CLoadTail(_) => true
    case CLoadHead(_, tail) => tail == s.tail
    case CLoadElement(_, tail) => tail == s.tail != s.head
    case CStoreTail(_, tail, el) => tail == s.tail != s.head && s.tail < |s.buf| && s.buf[s.tail] == el
    case CCountHead => true
    case CCountTail(head) => head < s.end && NumFree(head, s.tail, s.end) >= Free(s)
    case CCounted(n) => n >= Free(s)
  }

  /** What was put is what was got, followed by what the buffer holds from tail to head. */
  ghost predicate Inv(s: State) {
    && 1 <= s.end == |s.buf| && s.head < s.end && s.tail < s.end
    && s.published == s.consumed + Window(s.buf, s.tail, s.head)
    && ProducerInv(s) && ConsumerInv(s)
  }

  function Initial(buf: Elements): State
    requires 1 <= |buf| < 0x1_0000
  {
    State(buf, |buf|, 0, 0, PIdle, CIdle, [], [])
  }

  /** With room for one more, the next head stays clear of the tail. */
  lemma RoomToMove(s: State)
    requires 1 <= s.end == |s.buf| && s.head < s.end && s.tail < s.end
    ensures Next(s.head, s.end) < s.end && (Free(s) > 0 <==> Next(s.head, s.end) != s.tail)
  {
  }

  /** A store to the slot under the head leaves the consumer's slot alone. */
  lemma StoreElementInv(s: State, start: Producer)
    requires Inv(s) && s.producer.PStoreElement?
    ensures Inv(ProducerStep(s, start))
  {
    WindowUnwritten(s.buf, s.tail, s.head, s.producer.el);
  }

  lemma StoreHeadInv(s: State, start: Producer)
    requires Inv(s) && s.producer.PStoreHead?
    ensures Inv(ProducerStep(s, start))
  {
    RoomToMove(s);
    WindowHead(s.buf, s.tail, s.head, s.end);
    var s' := ProducerStep(s, start);
    assert s'.published == s'.consumed + Window(s'.buf, s'.tail, s'.head);
  }

  lemma ProducerStepInv(s: State, start: Producer)
    requires Inv(s) && (start.PLoadHead? || start.PCountHead?)
    ensures Inv(ProducerStep(s, start))
  {
    hide Window, Next;
    RoomToMove(s);
    NumFreeIs(s.head, s.tail, s.end);
    if s.producer.PStoreElement? {
      StoreElementInv(s, start);
    } else if s.producer.PStoreHead? {
      StoreHeadInv(s, start);
    }
  }

  lemma StoreTailInv(s: State, start: Consumer)
    requires Inv(s) && s.consumer.CStoreTail?
    ensures Inv(ConsumerStep(s, start))
  {
    WindowTail(s.buf, s.tail, s.head, s.end);
    var s' := ConsumerStep(s, start);
    assert s'.published == s'.consumed + Window(s'.buf, s'.tail, s'.head);
  }

  lemma ConsumerStepInv(s: State, start: Consumer)
    requires Inv(s) && (start.CLoadTail? || start.CCountHead?)
    ensures Inv(ConsumerStep(s, start))
  {
    hide Window, Next;
    NumFreeIs(s.head, s.tail, s.end);
    if s.consumer.CStoreTail? {
      StoreTailInv(s, start);
    }
  }

  /** The state after the moves, in any interleaving whatever. */
  ghost function Run(buf: Elements, moves: seq<Move>): (s: State)
    requires 1 <= |buf| < 0x1_0000
    ensures Inv(s)
  {
    if moves == [] then Initial(buf) else
    var s := Run(buf, moves[..|moves| - 1]);
    var m := moves[|moves| - 1];
    StepInv(s, m);
    Step(s, m)
  }

  lemma StepInv(s: State, m: Move)
    requires Inv(s)
    ensures Inv(Step(s, m))
  {
    match m
    case Put(el) => ProducerStepInv(s, PLoadHead(el));
    case ProducerCounts => ProducerStepInv(s, PCountHead);
    case Get => ConsumerStepInv(s, CLoadTail(false));
    case ProcessAll => ConsumerStepInv(s, CLoadTail(true));
    case ConsumerCounts => ConsumerStepInv(s, CCountHead);
  }

  /** First in, first out; nothing lost, nothing twice, and never more than end - 1 elements held. */
  lemma Fifo(buf: Elements, moves: seq<Move>)
    requires 1 <= |buf| < 0x1_0000
    ensures var s := Run(buf, moves);
      && s.tail < |s.buf| && s.head < |s.buf| == |buf|
      && s.published == s.consumed + Window(s.buf, s.tail, s.head)
      && s.consumed <= s.published && |s.published| - |s.consumed| <= |buf| - 1
  {
  }

  /** The producer's count is never too high and the consumer's never too low, whenever the call returns. */
  lemma CountsAreSafe(buf: Elements, moves: seq<Move>)
    requires 1 <= |buf| < 0x1_0000
    ensures var s := Run(buf, moves); var free := |buf| - 1 - (|s.published| - |s.consumed|);
      && (s.producer.PCounted? ==> s.producer.n <= free)
      && (s.consumer.CCounted? ==> s.consumer.n >= free)
  {
    Fifo(buf, moves);
  }

  /** RingBuf_put gives up exactly when the buffer is full at that moment, RingBuf_get exactly when it is empty. */
  lemma AnswersAreHonest(buf: Elements, moves: seq<Move>, start: Producer, start': Consumer)
    requires 1 <= |buf| < 0x1_0000
    ensures var s := Run(buf, moves); var held := |s.published| - |s.consumed|;
      && s.head < |s.buf|
      && (s.producer.PLoadTail? ==> (ProducerStep(s, start).producer.PIdle? <==> held == |buf| - 1))
      && (s.consumer.CLoadHead? ==> (ConsumerStep(s, start').consumer.CIdle? <==> held == 0))
  {
    hide Next, Window;
    var s := Run(buf, moves);
    Fifo(buf, moves);
    RoomToMove(s);
  }

  // ---- the calls, as their callers see them ----

  datatype Status = Open | Stored | GaveUp

  /** A call of RingBuf_put: its argument, and what has become of it. */
  datatype PutCall = PutCall(el: Byte, status: Status)

  /** The put calls that the moves begin, in order. A Put move begins one if the producer is idle; the call is over when the
      producer is idle again, and has stored something if that published an element. */
  ghost function PutCalls(buf: Elements, moves: seq<Move>): seq<PutCall>
    requires 1 <= |buf| < 0x1_0000
  {
    if moves == [] then []
    else
      var before, m := moves[..|moves| - 1], moves[|moves| - 1];
      NextPutCalls(PutCalls(buf, before), Run(buf, before), m, Run(buf, moves))
  }

  ghost function NextPutCalls(calls: seq<PutCall>, s: State, m: Move, s': State): seq<PutCall> {
    var n := |calls|;
    if s.producer.PIdle? then if m.Put? then calls + [PutCall(m.el, Open)] else calls
    else if n > 0 && calls[n - 1].status.Open? && s'.producer.PIdle? then
      calls[n - 1 := PutCall(calls[n - 1].el, if |s'.published| > |s.published| then Stored else GaveUp)]
    else calls
  }

  /** The arguments of the calls that stored them. */
  ghost function ElementsOf(calls: seq<PutCall>): Elements {
    if calls == [] then []
    else
      var last := calls[|calls| - 1];
      ElementsOf(calls[..|calls| - 1]) + if last.status.Stored? then [last.el] else []
  }

  /** What a producer in the middle of RingBuf_put holds. */
  ghost predicate Carries(p: Producer, el: Byte) {
    match p
    case PLoadHead(x) => x == el
    case PLoadTail(x, _) => x == el
    case PLoadIndex(x, _) => x == el
    case PStoreElement(x, _, _) => x == el
    case PStoreHead(x, _) => x == el
    case _ => false
  }

  ghost predicate Putting(p: Producer) {
    p.PLoadHead? || p.PLoadTail? || p.PLoadIndex? || p.PStoreElement? || p.PStoreHead?
  }

  ghost predicate PutCallsInv(calls: seq<PutCall>, s: State) {
    && (forall i :: 0 <= i < |calls| - 1 ==> !calls[i].status.Open?)
    && (Putting(s.producer) <==> calls != [] && calls[|calls| - 1].status.Open?)
    && (Putting(s.producer) ==> Carries(s.producer, calls[|calls| - 1].el))
    && s.published == ElementsOf(calls)
  }

  lemma OneMoreCall(calls: seq<PutCall>, call: PutCall)
    ensures ElementsOf(calls + [call]) == ElementsOf(calls) + if call.status.Stored? then [call.el] else []
  {
    assert (calls + [call])[..|calls|] == calls;
  }

  lemma LastCall(calls: seq<PutCall>, call: PutCall)
    requires calls != []
    ensures ElementsOf(calls[|calls| - 1 := call]) ==
            ElementsOf(calls[..|calls| - 1]) + if call.status.Stored? then [call.el] else []
  {
    assert calls[|calls| - 1 := call][..|calls| - 1] == calls[..|calls| - 1];
  }

  /** One move as it is seen from a put in progress: it goes on with the same element, or publishes it and is over, or finds
      the buffer full and is over. */
  lemma PutMove(s: State, m: Move, el: Byte)
    requires Inv(s) && Putting(s.producer) && Carries(s.producer, el)
    ensures var s' := Step(s, m);
      if !s'.producer.PIdle? then Putting(s'.producer) && Carries(s'.producer, el) && s'.published == s.published
      else s'.published == s.published + [el] || (s'.published == s.published && Free(s) == 0)
  {
    hide Window, Next;
    RoomToMove(s);
  }

  lemma OtherPutMove(s: State, m: Move)
    requires Inv(s) && !Putting(s.producer)
    ensures var s' := Step(s, m);
      && s'.published == s.published
      && (Putting(s'.producer) ==> s.producer.PIdle? && m.Put?)
      && (s.producer.PIdle? && m.Put? ==> s'.producer == PLoadHead(m.el))
  {
    hide Window, Next;
  }

  lemma PutCallsStep(calls: seq<PutCall>, s: State, m: Move)
    requires s.head < |s.buf| && Inv(s) && PutCallsInv(calls, s)
    ensures PutCallsInv(NextPutCalls(calls, s, m, Step(s, m)), Step(s, m))
  {
    hide Step, Inv, ElementsOf;
    var s' := Step(s, m);
    if Putting(s.producer) {
      var last := calls[|calls| - 1];
      PutMove(s, m, last.el);
      LastCall(calls, PutCall(last.el, if |s'.published| > |s.published| then Stored else GaveUp));
      LastCall(calls, last);
      assert calls[|calls| - 1 := last] == calls;
    } else {
      OtherPutMove(s, m);
      if s.producer.PIdle? && m.Put? {
        OneMoreCall(calls, PutCall(m.el, Open));
      }
    }
  }

  /** What has been published are the arguments of the put calls made, in order, without those of the calls that gave up
      and without that of a call still in progress; and only the last call can be in progress. */
  lemma {:induction false} PublishedArePut(buf: Elements, moves: seq<Move>)
    requires 1 <= |buf| < 0x1_0000
    ensures var s := Run(buf, moves); var calls := PutCalls(buf, moves);
      && s.published == ElementsOf(calls)
      && (forall i :: 0 <= i < |calls| - 1 ==> !calls[i].status.Open?)
      && (Putting(s.producer) <==> calls != [] && calls[|calls| - 1].status.Open?)
      && PutCallsInv(calls, s)
  {
    hide Step, NextPutCalls, Inv;
    if moves != [] {
      Fifo(buf, moves[..|moves| - 1]);
      PublishedArePut(buf, moves[..|moves| - 1]);
      PutCallsStep(PutCalls(buf, moves[..|moves| - 1]), Run(buf, moves[..|moves| - 1]), moves[|moves| - 1]);
    }
  }

  /** A call of RingBuf_get or RingBuf_process_all: the elements it has taken, and, when it is over, how many it left. */
  datatype GetCall = GetCall(all: bool, taken: Elements, open: bool, left: int)

  ghost function GetCalls(buf: Elements, moves: seq<Move>): seq<GetCall>
    requires 1 <= |buf| < 0x1_0000
  {
    if moves == [] then []
    else
      var before, m := moves[..|moves| - 1], moves[|moves| - 1];
      NextGetCalls(GetCalls(buf, before), Run(buf, before), m, Run(buf, moves))
  }

  ghost function NextGetCalls(calls: seq<GetCall>, s: State, m: Move, s': State): seq<GetCall> {
    var n := |calls|;
    if s.consumer.CIdle? then if m.Get? || m.ProcessAll? then calls + [GetCall(m.ProcessAll?, [], true, 0)] else calls
    else if n > 0 && calls[n - 1].open && |s.consumed| <= |s'.consumed| then
      var taken := calls[n - 1].taken + s'.consumed[|s.consumed|..];
      calls[n - 1 := GetCall(calls[n - 1].all, taken, !s'.consumer.CIdle?, |s'.published| - |s'.consumed|)]
    else calls
  }

  ghost function TakenBy(calls: seq<GetCall>): Elements {
    if calls == [] then [] else TakenBy(calls[..|calls| - 1]) + calls[|calls| - 1].taken
  }

  ghost predicate Getting(c: Consumer) {
    c.CLoadTail? || c.CLoadHead? || c.CLoadElement? || c.CStoreTail?
  }

  /** A get takes at most one element, and none only if it found the buffer empty; process_all ends with the buffer empty. */
  ghost predicate GetOver(call: GetCall) {
    if call.all then call.left == 0 else |call.taken| == 1 || (call.taken == [] && call.left == 0)
  }

  ghost predicate InProgress(c: Consumer, call: GetCall) {
    match c
    case CLoadTail(all) => all == call.all && call.taken == []
    case CLoadHead(all, _) => all == call.all && (!all ==> call.taken == [])
    case CLoadElement(all, _) => all == call.all && (!all ==> call.taken == [])
    case CStoreTail(all, _, _) => all == call.all && (!all ==> call.taken == [])
    case _ => false
  }

  ghost predicate GetCallsInv(calls: seq<GetCall>, s: State) {
    && (forall i :: 0 <= i < |calls| - 1 ==> !calls[i].open)
    && (forall i :: 0 <= i < |calls| ==> calls[i].open || GetOver(calls[i]))
    && (Getting(s.consumer) <==> calls != [] && calls[|calls| - 1].open)
    && (Getting(s.consumer) ==> InProgress(s.consumer, calls[|calls| - 1]))
    && s.consumed == TakenBy(calls)
  }

  lemma OneMoreGet(calls: seq<GetCall>, call: GetCall)
    ensures TakenBy(calls + [call]) == TakenBy(calls) + call.taken
  {
    assert (calls + [call])[..|calls|] == calls;
  }

  lemma LastGet(calls: seq<GetCall>, call: GetCall, more: Elements)
    requires calls != [] && call.taken == calls[|calls| - 1].taken + more
    ensures TakenBy(calls[|calls| - 1 := call]) == TakenBy(calls) + more
  {
    assert calls[|calls| - 1 := call][..|calls| - 1] == calls[..|calls| - 1];
  }

  /** One move as it is seen from a call in progress. */
  lemma GetMove(s: State, m: Move, call: GetCall)
    requires Inv(s) && Getting(s.consumer) && InProgress(s.consumer, call)
    ensures var s' := Step(s, m); var more := s'.consumed[if |s.consumed| <= |s'.consumed| then |s.consumed| else 0..];
      var now := GetCall(call.all, call.taken + more, !s'.consumer.CIdle?, |s'.published| - |s'.consumed|);
      && |s.consumed| <= |s'.consumed| && s'.consumed == s.consumed + more
      && (now.open || GetOver(now)) && (Getting(s'.consumer) <==> now.open)
      && (now.open ==> InProgress(s'.consumer, now))
  {
    hide Window, Next;
    var s' := Step(s, m);
    HeldIs(s);
    if m.Put? || m.ProducerCounts? {
      assert s'.consumer == s.consumer && s'.consumed == s.consumed;
    } else if s.consumer.CStoreTail? {
      assert s'.consumed == s.consumed + [s.consumer.el];
    } else {
      assert s'.consumed == s.consumed && s'.published == s.published;
    }
  }

  lemma OtherMove(s: State, m: Move)
    requires Inv(s) && !Getting(s.consumer)
    ensures var s' := Step(s, m);
      && s'.consumed == s.consumed
      && (Getting(s'.consumer) ==> s.consumer.CIdle? && (m.Get? || m.ProcessAll?))
      && (s.consumer.CIdle? && (m.Get? || m.ProcessAll?) ==> s'.consumer == CLoadTail(m.ProcessAll?))
  {
    hide Window, Next;
  }

  lemma GetCallsStep(calls: seq<GetCall>, s: State, m: Move)
    requires s.head < |s.buf| && Inv(s) && GetCallsInv(calls, s)
    ensures GetCallsInv(NextGetCalls(calls, s, m, Step(s, m)), Step(s, m))
  {
    hide Step, Inv, GetOver, InProgress, TakenBy;
    var s' := Step(s, m);
    if Getting(s.consumer) {
      var last := calls[|calls| - 1];
      GetMove(s, m, last);
      var more := s'.consumed[|s.consumed|..];
      LastGet(calls, GetCall(last.all, last.taken + more, !s'.consumer.CIdle?, |s'.published| - |s'.consumed|), more);
    } else {
      OtherMove(s, m);
      if s.consumer.CIdle? && (m.Get? || m.ProcessAll?) {
        OneMoreGet(calls, GetCall(m.ProcessAll?, [], true, 0));
        BeginsGet(m.ProcessAll?);
      }
    }
  }

  lemma BeginsGet(all: bool)
    ensures InProgress(CLoadTail(all), GetCall(all, [], true, 0))
  {
  }

  /** As many elements are held as lie between tail and head. */
  lemma HeldIs(s: State)
    requires Inv(s)
    ensures |s.published| - |s.consumed| == Count(s.tail, s.head, s.end)
    ensures Count(s.tail, s.head, s.end) == 0 <==> s.tail == s.head
  {
  }

  /** What has been consumed is what the calls have taken, in order; a get takes one element, or none when the buffer is
      empty, and process_all goes on until it is. */
  lemma {:induction false} ConsumedAreGot(buf: Elements, moves: seq<Move>)
    requires 1 <= |buf| < 0x1_0000
    ensures var s := Run(buf, moves); var calls := GetCalls(buf, moves);
      && s.consumed == TakenBy(calls)
      && (forall i :: 0 <= i < |calls| - 1 ==> !calls[i].open)
      && (forall i :: 0 <= i < |calls| && !calls[i].open ==> GetOver(calls[i]))
      && (Getting(s.consumer) <==> calls != [] && calls[|calls| - 1].open)
      && GetCallsInv(calls, s)
  {
    hide Step, NextGetCalls, Inv, GetOver;
    if moves != [] {
      Fifo(buf, moves[..|moves| - 1]);
      ConsumedAreGot(buf, moves[..|moves| - 1]);
      GetCallsStep(GetCalls(buf, moves[..|moves| - 1]), Run(buf, moves[..|moves| - 1]), moves[|moves| - 1]);
    }
  }
}
