/** equiv-malloc.c: the explicit-free-list allocator. */
module Allocator {
  import opened Words
  import opened HeapLayout
  import opened HeapSteps
  import opened HeapAbsorption

  const ALIGNMENT := 8
  const MAX_REQUEST_SIZE := 0x4000_0000
  const SIZE_MAX := 0xFFFF_FFFF

  /** Fault: the source reads through a NULL pointer. */
  datatype Outcome = Returned(p: Word) | Fault

  /** What validate_heap returns, 1 or 0; or it reads through a NULL pointer. */
  datatype Verdict = Healthy | Broken | NullRead

  /** roundup, for a multiple that is a power of two. */
  function Roundup(size: nat, mult: nat): (r: nat)
    requires mult > 0
  {
    (size + mult - 1) / mult * mult
  }

  /** The least multiple of 8 that is not smaller. */
  lemma RoundupIs(size: nat)
    ensures var r := Roundup(size, ALIGNMENT); r % 8 == 0 && size <= r < size + 8
  {
  }

  /** How many payload bytes a request is given. */
  function Needs(requested: nat): nat {
    Roundup(if requested < MINIMUM_PAYLOAD then MINIMUM_PAYLOAD else requested, ALIGNMENT)
  }

  lemma NeedsOf(n: nat)
    requires n >= MINIMUM_PAYLOAD && n % 8 == 0
    ensures Needs(n) == n
  {
  }

  /** The least size of a block that serves a request. */
  function Least(requested: nat): nat {
    if requested < 16 then 16 else requested
  }

  /** Needs is the least multiple of 8 that serves. */
  lemma NeedsIsLeast(requested: nat, m: nat)
    ensures Needs(requested) % 8 == 0 && Least(requested) <= Needs(requested) < Least(requested) + 8
    ensures m % 8 == 0 && m >= requested && m >= MINIMUM_PAYLOAD ==> Needs(requested) <= m
  {
    RoundupIs(Least(requested));
    hide Roundup;
  }

  /** So a block is large enough if and only if its size, rounded down to a multiple of 8, serves. */
  ghost predicate RoomFor(size: int, requested: nat) {
    size - size % 8 >= Least(requested)
  }

  lemma RoomIs(size: nat, requested: nat)
    ensures RoomFor(size, requested) <==> size >= Needs(requested)
  {
    NeedsIsLeast(requested, size - size % 8);
    hide Needs;
  }

  ghost predicate SomeRoom(blocks: Blocks, requested: nat) {
    exists a :: a in blocks && blocks[a].free && RoomFor(blocks[a].size, requested)
  }

  /** d becomes a used block of m bytes and the rest of it a free one, if that leaves a header and 16 bytes or more. */
  ghost predicate Cut(b0: Blocks, b: Blocks, d: int, m: nat)
    requires d in b0
  {
    b == if b0[d].size >= m + 20 then b0[d := Block(m, false)][d + 4 + m := Block(b0[d].size - m - 4, true)]
         else b0[d := Block(b0[d].size, false)]
  }

  ghost predicate CutToFit(b0: Blocks, b: Blocks, d: int, requested: nat)
    requires d in b0
  {
    exists m: nat :: m % 8 == 0 && Least(requested) <= m < Least(requested) + 8 && Cut(b0, b, d, m)
  }

  /** What a request is answered with, in terms of the blocks alone. */
  ghost predicate Granted(b0: Blocks, b: Blocks, requested: Word, o: Outcome) {
    if requested == 0 || requested > MAX_REQUEST_SIZE then o == Returned(NULL) && b == b0
    else if !HasFree(b0) then o == Fault && b == b0
    else if !SomeRoom(b0, requested) then o == Returned(NULL) && b == b0
    else
      && o.Returned? && o.p > 4
      && var d := o.p - 4;
         && d in b0 && b0[d].free && RoomFor(b0[d].size, requested)
         && (forall a :: a in b0 && b0[a].free && RoomFor(b0[a].size, requested) ==> b0[d].size <= b0[a].size)
         && CutToFit(b0, b, d, requested)
  }

  /** What equiv_malloc answers and which block it takes. */
  ghost predicate Allocation(b0: Blocks, free0: seq<Word>, b: Blocks, requested: Word, o: Outcome) {
    && (o == Fault <==> 0 < requested <= MAX_REQUEST_SIZE && free0 == [])
    && (o == Returned(NULL) <==> requested == 0 || requested > MAX_REQUEST_SIZE ||
                                 (free0 != [] && NothingFits(b0, free0, Needs(requested))))
    && (o == Fault || o == Returned(NULL) ==> b == b0)
    && (o != Fault && o != Returned(NULL) ==>
          var h := o.p - METADATA;
          && h > 0 && FitsBest(b0, free0, Needs(requested), h) && h in b0 && b0[h].free
          && b == Trimmed(WithStatus(b0, h, false), h, Needs(requested))
          && h in b && !b[h].free && requested <= Needs(requested) <= b[h].size)
  }

  /** h, a used block of b0, was freed, and all free blocks that follow it became part of it. */
  ghost predicate Freed(b0: Blocks, b: Blocks, h: int, hi: int)
    requires h in b0
  {
    && Absorbed(WithStatus(b0, h, true), b, h) && b[h].free && End(b, h) == RunEnd(WithStatus(b0, h, true), h, hi)
    && (End(b, h) in b ==> !b[End(b, h)].free)
  }

  /** What equiv_realloc answers for a block that is too small, and what becomes of its data. */
  ghost predicate Grown(m0: WordMemory, b0: Blocks, m: WordMemory, b: Blocks, oldPtr: Word, needs: Word, hi: int,
          o: Outcome)
    requires oldPtr - METADATA in b0
  {
    var h := oldPtr - METADATA;
    var room := RunEnd(b0, End(b0, h), hi) - oldPtr;  // with the free blocks to the right
    && (o == Returned(oldPtr) <==> needs <= room)
    && (o == Fault <==> needs > room && !HasSpare(b0, hi, h))
    && (o == Returned(NULL) <==> needs > room && HasSpare(b0, hi, h) && NoSpareFits(b0, hi, h, needs))
    && (o == Returned(NULL) ==> Absorbed(b0, b, h) && !b[h].free && b[h].size == room && Keeps(m0, m, oldPtr, b0[h].size))
    && (o == Returned(oldPtr) ==>
          && h in b && !b[h].free && b[h].size == (if room - needs >= 20 then needs else room)
          && Keeps(m0, m, oldPtr, b0[h].size))
    && (o != Fault && o.p != NULL && o.p != oldPtr ==>
          && BestSpare(b0, hi, h, needs, o.p - METADATA)
          && o.p - METADATA in b && !b[o.p - METADATA].free && b[o.p - METADATA].size >= needs
          && Moved(m0, m, oldPtr, o.p, b0[h].size))
    && (o != Fault ==> LiveKept(b0, m0, b, m, {h}))
  }

  lemma NothingFitsIs(mem: WordMemory, blocks: Blocks, free: seq<Word>, t: Totals, lo: int, hi: int, requested: nat)
    requires Sound(mem, blocks, free, {}, t, lo, hi)
    ensures NothingFits(blocks, free, Needs(requested)) <==> !SomeRoom(blocks, requested)
    ensures free == [] <==> !HasFree(blocks)
  {
    hide Tiling, Headers, Walk, Spaced, Needs, RoomFor;
    ListEmpty(mem, blocks, free, t, lo, hi);
    ListedMembers(blocks, free, {});
    if a :| a in blocks && blocks[a].free && RoomFor(blocks[a].size, requested) {
      SizeIsPositive(mem, blocks, free, t, lo, hi, a);
      RoomIs(blocks[a].size, requested);
      var i := ListIndex(blocks, free, a);
      assert SizeAt(blocks, free, i) >= Needs(requested);
    } else {
      forall i | 0 <= i < |free|
        ensures SizeAt(blocks, free, i) < Needs(requested)
      {
        SizeIsPositive(mem, blocks, free, t, lo, hi, free[i]);
        RoomIs(blocks[free[i]].size, requested);
      }
    }
  }

  lemma SizeIsPositive(mem: WordMemory, blocks: Blocks, free: seq<Word>, t: Totals, lo: int, hi: int, a: int)
    requires Sound(mem, blocks, free, {}, t, lo, hi)
    ensures a in blocks ==> blocks[a].size >= MINIMUM_PAYLOAD
  {
    hide Chained, Apart, Headers, Listed, Spaced, Walk;
  }

  lemma BestIsLeast(mem: WordMemory, blocks: Blocks, free: seq<Word>, t: Totals, lo: int, hi: int, requested: nat, d: int)
    requires Sound(mem, blocks, free, {}, t, lo, hi) && FitsBest(blocks, free, Needs(requested), d)
    ensures d in blocks && blocks[d].free && RoomFor(blocks[d].size, requested)
    ensures forall a :: a in blocks && blocks[a].free && RoomFor(blocks[a].size, requested) ==> blocks[d].size <= blocks[a].size
  {
    hide Tiling, Headers, Walk, Spaced, Needs, RoomFor;
    var i: nat :| BestFit(blocks, free, Needs(requested), i) && free[i] == d;
    ListedMembers(blocks, free, {});
    SizeIsPositive(mem, blocks, free, t, lo, hi, d);
    RoomIs(blocks[d].size, requested);
    forall a | a in blocks && blocks[a].free && RoomFor(blocks[a].size, requested)
      ensures blocks[d].size <= blocks[a].size
    {
      SizeIsPositive(mem, blocks, free, t, lo, hi, a);
      RoomIs(blocks[a].size, requested);
      var j := ListIndex(blocks, free, a);
      assert SizeAt(blocks, free, j) >= Needs(requested);
    }
  }

  lemma TrimmedIsCut(b0: Blocks, d: int, requested: nat)
    requires d in b0
    ensures CutToFit(b0, Trimmed(WithStatus(b0, d, false), d, Needs(requested)), d, requested)
  {
    NeedsIsLeast(requested, 0);
    var m := Needs(requested);
    hide Needs;
    assert Cut(b0, Trimmed(WithStatus(b0, d, false), d, m), d, m);
  }

  lemma AllocationGrants(mem: WordMemory, blocks: Blocks, free: seq<Word>, t: Totals, lo: int, hi: int, b: Blocks,
          requested: Word, o: Outcome)
    requires Sound(mem, blocks, free, {}, t, lo, hi) && Allocation(blocks, free, b, requested, o)
    ensures Granted(blocks, b, requested, o)
  {
    hide Sound, HasFree, SomeRoom, RoomFor, NothingFits, FitsBest, Needs, Trimmed, WithStatus, CutToFit;
    NothingFitsIs(mem, blocks, free, t, lo, hi, requested);
    if o != Fault && o != Returned(NULL) {
      BestIsLeast(mem, blocks, free, t, lo, hi, requested, o.p - METADATA);
      TrimmedIsCut(blocks, o.p - METADATA, requested);
    }
  }

  /** Whether the free list is in order when equiv_realloc has answered o for a block that is too small. */
  ghost predicate ListKept(m0: WordMemory, b0: Blocks, free0: seq<Word>, oldPtr: Word, needs: Word, hi: int, o: Outcome)
    requires oldPtr - METADATA in b0
  {
    && (o == Returned(oldPtr) ==> KeptInPlace(m0, b0, free0, oldPtr - METADATA, needs, hi))
    && (o != Fault && o.p != NULL && o.p != oldPtr ==>
          KeptByMove(m0, b0, oldPtr - METADATA, o.p - METADATA, needs, hi))
  }

  /** Absorbing made enough room: m1, b1 is the state after it, m, b the one after trimming. */
  lemma GrownInPlace(m0: WordMemory, b0: Blocks, m1: WordMemory, b1: Blocks, m: WordMemory, b: Blocks, oldPtr: Word,
          needs: Word, hi: int)
    requires oldPtr - METADATA in b0 && oldPtr - METADATA in b1 && oldPtr > 0
    requires var h := oldPtr - METADATA;
      && b0[h].size < needs <= b1[h].size && MINIMUM_PAYLOAD <= needs && !b1[h].free
      && End(b1, h) == RunEnd(b0, End(b0, h), hi) && b == Trimmed(b1, h, needs)
      && LiveKept(b0, m0, b1, m1, {h}) && Keeps(m0, m1, h + METADATA, b0[h].size)
      && LiveKept(b1, m1, b, m, {h}) && Keeps(m1, m, h + METADATA, needs)
    ensures Grown(m0, b0, m, b, oldPtr, needs, hi, Returned(oldPtr))
  {
    hide LiveKept, Keeps, RunEnd, Trimmed, HasSpare, NoSpareFits, Absorbed, Moved;
    TrimmedSize(b1, oldPtr - METADATA, needs);
    GrownKeeps(b0, m0, b1, m1, b, m, oldPtr - METADATA, needs);
  }

  /** It did not: m1, b1 is the state before the move, m, b the one after it. */
  lemma GrownByMove(m0: WordMemory, b0: Blocks, m1: WordMemory, b1: Blocks, free1: seq<Word>, m: WordMemory, b: Blocks,
          oldPtr: Word, needs: Word, hi: int, o: Outcome)
    requires oldPtr - METADATA in b0 && oldPtr - METADATA in b1 && oldPtr > 0
    requires var h := oldPtr - METADATA;
      && b0[h].size <= b1[h].size < needs && !b1[h].free
      && End(b1, h) == RunEnd(b0, End(b0, h), hi) && Absorbed(b0, b1, h)
      && LiveKept(b0, m0, b1, m1, {h}) && Keeps(m0, m1, h + METADATA, b0[h].size)
      && (HasSpare(b0, hi, h) <==> HasFree(b1)) && (NothingFits(b1, free1, needs) <==> NoSpareFits(b0, hi, h, needs))
    requires o == Fault <==> !HasFree(b1)
    requires o == Returned(NULL) <==> HasFree(b1) && NothingFits(b1, free1, needs)
    requires o == Fault || o == Returned(NULL) ==> m == m1 && b == b1
    requires o != Fault && o.p != NULL ==>
      var d := o.p - METADATA;
      && BestSpare(b0, hi, oldPtr - METADATA, needs, d)
      && d in b && !b[d].free && d != oldPtr - METADATA && b[d].size >= needs
      && Moved(m1, m, oldPtr, o.p, b1[oldPtr - METADATA].size) && LiveKept(b1, m1, b, m, {oldPtr - METADATA})
    ensures Grown(m0, b0, m, b, oldPtr, needs, hi, o)
  {
    hide LiveKept, Keeps, RunEnd, HasSpare, HasFree, NoSpareFits, NothingFits, Absorbed, Moved, BestSpare;
    var h := oldPtr - METADATA;
    if o != Fault && o.p != NULL {
      MovedPrefix(m0, m1, m, oldPtr, o.p, b0[h].size, b1[h].size);
      LiveKeptTransitive(b0, m0, b1, m1, b, m, {h}, {h}, {h});
    }
  }

  class Heap {
    var mem: WordMemory
    var base: Word
    var size: Word
    var firstFree: Word
    var blocksUsed: int
    var blocksFree: int
    var bytesUsed: int
    var bytesFree: int
    ghost var blocks: Blocks
    ghost var free: seq<Word>  // the free list

    ghost function Counters(): Totals
      reads this
    {
      Totals(blocksUsed, blocksFree, bytesUsed, bytesFree)
    }

    /** The blocks tile the heap, the headers say so, the free list names the free ones
        (and those in extra), and the counters are what a walk counts. */
    ghost predicate Intact(extra: set<int>)
      reads this
    {
      Sound(mem, blocks, free, extra, Counters(), base, base + size) && firstFree == FirstOf(free)
    }

    /** And the links in the free blocks are those of the list. */
    ghost predicate Valid()
      reads this
    {
      Intact({}) && Linked(mem, free)
    }

    /** equiv_malloc_init. The heap it leaves is well formed exactly if the size is even. */
    method Init(start: Word, heapSize: Word) returns (ok: bool)
      requires start > 0 && start % 4 == 0 && start + heapSize <= TWO_TO_THE_32
      modifies this
      ensures ok <==> heapSize >= 28
      ensures ok ==> base == start && size == heapSize && free == [start]
      ensures ok ==> blocks == Whole(start, SizeOf(heapSize - METADATA))
      ensures ok ==> (Valid() <==> Even(heapSize))
      ensures ok ==> OutsideKept(old(mem), mem, base, base + size)
    {
      if heapSize < 12 + MINIMUM_PAYLOAD { return false; }
      MakeHeap(start, heapSize);
      return true;
    }

    method MakeHeap(start: Word, heapSize: Word)
      requires start > 0 && start % 4 == 0 && start + heapSize <= TWO_TO_THE_32 && heapSize >= 28
      modifies this
      ensures base == start && size == heapSize && free == [start]
      ensures blocks == Whole(start, SizeOf(heapSize - METADATA))
      ensures Valid() <==> Even(heapSize)
      ensures OutsideKept(old(mem), mem, base, base + size)
    {
      hide InitStores, Shaped, Linked, Walk, OutsideKept, SizeOf, Even, Whole;
      base, firstFree, size := start, start, heapSize;
      bytesUsed, blocksUsed, bytesFree := 0, 0, 0;
      var first: Word := heapSize - METADATA;
      FirstBlock(start, first);
      bytesFree, blocksFree := first, 1;
      blocks, free := Whole(start, SizeOf(first)), [start];
      InitFrame(old(mem), start, first, base + size);
      InitShaped(mem, start, heapSize);
    }

    /** make_block, and the links set to NULL. */
    method FirstBlock(h: Word, n: Word)
      modifies this`mem
      ensures mem == InitStores(old(mem), h, n)
    {
      SetSize(h, n);
      SetStatus(h, true);
      mem := Put(mem, h + PREVIOUS, NULL);
      mem := Put(mem, h + NEXT, NULL);
    }

    method SetSize(h: Word, n: Word)
      modifies this`mem
      ensures mem == Put(old(mem), h, SizeOf(n) + old(mem)(h) % 2)
    {
      mem := Put(mem, h, SizeOf(n) + mem(h) % 2);
    }

    method SetStatus(h: Word, free: bool)
      modifies this`mem
      ensures mem == Put(old(mem), h, SizeOf(old(mem)(h)) + if free then 1 else 0)
    {
      mem := Put(mem, h, SizeOf(mem(h)) + if free then 1 else 0);
    }

    method RemoveFreeBlock(header: Word, ghost i: nat)
      requires Linked(mem, free) && Spaced(free) && firstFree == FirstOf(free) && i < |free| && header == free[i]
      modifies this`mem, this`firstFree, this`free
      ensures mem == Unlink(old(mem), header)
      ensures free == Without(old(free), i) && firstFree == FirstOf(free)
    {
      assert LinkedAt(mem, free, i);
      var previous, next := mem(header + PREVIOUS), mem(header + NEXT);
      if previous == NULL {
        firstFree := next;
      } else {
        mem := Put(mem, previous + NEXT, next);
      }
      if next != NULL {
        mem := Put(mem, next + PREVIOUS, previous);
      }
      free := Without(free, i);
    }

    /** append_free_block. A list that is not empty stays in order; an empty one comes to be in order exactly if the
        block's two link words happen to be NULL. */
    method AppendFreeBlock(header: Word)
      requires firstFree == FirstOf(free) && Spaced([header] + free)
      modifies this`mem, this`firstFree, this`free
      ensures free == [header] + old(free) && firstFree == FirstOf(free)
      ensures old(Linked(mem, free)) ==>
        (Linked(mem, free) <==> old(free) != [] || (old(mem)(header + PREVIOUS) == NULL && old(mem)(header + NEXT) == NULL))
      ensures OnlyLinks(old(mem), mem, free)
      ensures mem == Prepend(old(mem), old(firstFree), header)
    {
      hide Linked;
      PrependGood(mem, free, header);
      var oldFirstFree := firstFree;
      if oldFirstFree != NULL {
        mem := Put(mem, header + NEXT, oldFirstFree);
        mem := Put(mem, header + PREVIOUS, NULL);
        mem := Put(mem, oldFirstFree + PREVIOUS, header);
      }
      firstFree := header;
      free := [header] + free;
    }

    /** next_block, from a header that gives the end of block h. That is h's own, or, while h absorbs its neighbours,
        the one that was absorbed last. The answer is the block after h, or NULL if h is the last one. */
    method NextBlock(header: Word, ghost h: int) returns (next: Word)
      requires Intact({}) && h in blocks && header + METADATA + SizeOf(mem(header)) == End(blocks, h)
      ensures next == NULL <==> End(blocks, h) == base + size
      ensures next != NULL ==> next == End(blocks, h) && next in blocks
    {
      hide Sound, SizeOf;
      NextRead(mem, blocks, free, Counters(), base, base + size, h);
      var end := header + METADATA + SizeOf(mem(header));
      if end >= base + size { return NULL; }
      return end;
    }

    /** The stores of coalesce_right: h grows to n bytes and next leaves the list. */
    method TakeIn(h: Word, n: Word, next: Word, ghost i: nat, ghost v: Word)
      requires v == SizeOf(n) + mem(h) % 2 && Linked(Put(mem, h, v), free) && Spaced(free)
      requires firstFree == FirstOf(free) && i < |free| && next == free[i]
      modifies this`mem, this`firstFree, this`free
      ensures mem == CoalesceStores(old(mem), h, v, next) && free == Without(old(free), i) && firstFree == FirstOf(free)
    {
      hide Linked, Spaced, Unlink, Put, SizeOf, Without, FirstOf;
      SetSize(h, n);
      RemoveFreeBlock(next, i);
    }

    /** One round of coalesce_right. m0, b0 and free0 are the heap that it began with. */
    method CoalesceOnce(h: Word, next: Word, ghost m0: WordMemory, ghost b0: Blocks, ghost free0: seq<Word>,
            ghost t0: Totals)
      requires Valid() && h in blocks && blocks[h].free && next == End(blocks, h) && next in blocks && blocks[next].free
      requires Good(m0, b0, free0, t0, base, base + size)
      requires Coalescing(b0, m0, blocks, mem, base, base + size, h) && Leaves(m0, b0, free0, mem, free, h, next)
      modifies this`mem, this`firstFree, this`free, this`blocks, this`blocksFree, this`bytesFree
      ensures Valid() && blocks == Merged(old(blocks), h) && |blocks| < |old(blocks)|
      ensures h in blocks && blocks[h].free && next + METADATA + SizeOf(mem(next)) == End(blocks, h)
      ensures Coalescing(b0, m0, blocks, mem, base, base + size, h)
      ensures Leaves(m0, b0, free0, mem, free, h, End(blocks, h))
    {
      hide Sound, LiveKept, OutsideKept, Merged, Without, SizeOf, Linked, Spaced, Unlink, Put, Metadata, FirstOf,
        Leaves, Coalescing, CoalesceStores;
      ghost var i, v := CoalesceGood(mem, blocks, free, Counters(), base, base + size, h, next);
      NextRead(mem, blocks, free, Counters(), base, base + size, next);
      CoalescingRound(m0, b0, free0, t0, mem, blocks, free, Counters(), base, base + size, h, next, i, v);
      var newSpace := SizeOf(mem(next)) + METADATA;
      TakeIn(h, SizeOf(mem(h)) + newSpace, next, i, v);
      blocks := Merged(blocks, h);
      blocksFree := blocksFree - 1;
      bytesFree := bytesFree + METADATA;
    }

    /** coalesce_right: everything free that follows h becomes part of h. */
    method CoalesceRight(h: Word)
      requires Intact({}) && (Linked(mem, free) || free == [h]) && h in blocks && blocks[h].free
      modifies this`mem, this`firstFree, this`free, this`blocks, this`blocksFree, this`bytesFree
      ensures Intact({}) && (Linked(mem, free) <==> old(Linked(mem, free))) && (free == [h] <== old(free) == [h])
      ensures Absorbed(old(blocks), blocks, h) && blocks[h].free && End(blocks, h) == RunEnd(old(blocks), h, base + size)
      ensures End(blocks, h) in blocks ==> !blocks[End(blocks, h)].free
      ensures LiveKept(old(blocks), old(mem), blocks, mem, {}) && OutsideKept(old(mem), mem, base, base + size)
      ensures old(Linked(mem, free)) ==> Leaves(old(mem), old(blocks), old(free), mem, free, h, End(blocks, h))
    {
      hide Sound, LiveKept, OutsideKept, Absorbed, Merged, SizeOf, IsFree, Linked, RunEnd, FirstOf, Coalescing, Leaves;
      var next: Word := h;
      LeavesBegin(mem, blocks, free, Counters(), base, base + size, h);
      CoalescingBegin(mem, blocks, free, Counters(), base, base + size, h);
      NextRead(mem, blocks, free, Counters(), base, base + size, h);
      while true
        invariant Intact({}) && (Linked(mem, free) <==> old(Linked(mem, free)))
        invariant Linked(mem, free) || free == [h]
        invariant old(free) == [h] ==> free == [h]
        invariant Coalescing(old(blocks), old(mem), blocks, mem, base, base + size, h)
        invariant h in blocks && blocks[h].free && next + METADATA + SizeOf(mem(next)) == End(blocks, h)
        invariant old(Linked(mem, free)) ==> Leaves(old(mem), old(blocks), old(free), mem, free, h, End(blocks, h))
        invariant base == old(base) && size == old(size)
        decreases |blocks|
      {
        NextRead(mem, blocks, free, Counters(), base, base + size, h);
        var n := NextBlock(next, h);
        if n == NULL { break; }
        next := n;
        if !IsFree(mem(next)) { break; }
        NotOnly(mem, blocks, free, Counters(), base, base + size, h, next);
        CoalesceOnce(h, next, old(mem), old(blocks), old(free), old(Counters()));
      }
      CoalescingEnd(mem, old(blocks), old(mem), blocks, base, base + size, h);
    }

    /** make_block for a free block: the size, keeping the status bit that happens to be there, and then the status. */
    method MakeFreeBlock(n: Word, payload: Word) returns (ghost stale: Word)
      requires SizeOf(payload) == payload && payload + 1 < TWO_TO_THE_32
      modifies this`mem
      ensures mem == Put(Put(old(mem), n, stale), n, payload + 1)
    {
      stale := payload + mem(n) % 2;
      SetSize(n, payload);
      SetStatus(n, true);
    }

    /** The stores of a split: h shrinks to `needs` bytes, and what it loses becomes a block and is listed. */
    method CutBlock(h: Word, needs: Word, payload: Word) returns (n: Word, ghost stale: Word)
      requires SizeOf(needs) + mem(h) % 2 == needs && h + METADATA + needs < TWO_TO_THE_32
      requires SizeOf(payload) == payload && payload + 1 < TWO_TO_THE_32
      requires firstFree == FirstOf(free) && Spaced([(h + METADATA + needs) as Word] + free)
      modifies this`mem, this`firstFree, this`free
      ensures n == h + METADATA + needs
      ensures mem == TrimStores(old(mem), h, needs, n, stale, payload + 1, old(firstFree))
      ensures free == [n] + old(free) && firstFree == FirstOf(free)
    {
      hide SizeOf, Put, Spaced, FirstOf, Linked, OnlyLinks, Prepend;
      SetSize(h, needs);
      n := h + METADATA + needs;
      stale := MakeFreeBlock(n, payload);
      AppendFreeBlock(n);
    }

    /** The case of trim_block_if_possible that makes a new block. */
    method SplitBlock(h: Word, needs: Word, ghost extra: set<int>)
      requires Intact(extra) && Linked(mem, free) && extra <= {h as int} && h in blocks && !blocks[h].free
      requires MINIMUM_PAYLOAD <= needs <= blocks[h].size && needs % 4 == 0 && Trims(blocks, h, needs)
      modifies this`mem, this`firstFree, this`free, this`blocks, this`blocksFree, this`bytesUsed, this`bytesFree
      ensures Intact(extra) && blocks == Split(old(blocks), h, needs) && free == [h + METADATA + needs] + old(free)
      ensures var n := h + METADATA + needs;
        Linked(mem, free) <==> old(free) != [] || (old(mem)(n + PREVIOUS) == NULL && old(mem)(n + NEXT) == NULL)
      ensures LiveKept(old(blocks), old(mem), blocks, mem, {h as int}) && OutsideKept(old(mem), mem, base, base + size)
      ensures h !in old(free) ==> Keeps(old(mem), mem, h + METADATA, needs)
    {
      hide Sound, LiveKept, SizeOf, Linked, OutsideKept, Keeps, Split, Trimmable, Trims, FirstOf, Spaced, TrimStores;
      TrimReads(mem, blocks, free, extra, Counters(), base, base + size, h, needs);
      var excess := SizeOf(mem(h)) - needs;
      var excessPayload: Word := excess - METADATA;
      TrimSpaced(mem, blocks, free, extra, Counters(), base, base + size, h, needs, h + METADATA + needs);
      ghost var stale;
      var n: Word;
      n, stale := CutBlock(h, needs, excessPayload);
      TrimGood(old(mem), blocks, old(free), extra, Counters(), base, base + size, h, needs, n, stale, excessPayload + 1);
      blocks := Split(blocks, h, needs);
      blocksFree := blocksFree + 1;
      bytesFree := bytesFree + excessPayload;
      bytesUsed := bytesUsed - excess;
    }

    /** trim_block_if_possible. On an empty list the links of the new block are whatever stood there. */
    method TrimBlockIfPossible(h: Word, needs: Word, ghost extra: set<int>)
      requires Intact(extra) && Linked(mem, free) && extra <= {h as int} && h in blocks && !blocks[h].free
      requires MINIMUM_PAYLOAD <= needs <= blocks[h].size && needs % 4 == 0
      modifies this`mem, this`firstFree, this`free, this`blocks, this`blocksFree, this`bytesUsed, this`bytesFree
      ensures Intact(extra) && blocks == Trimmed(old(blocks), h, needs)
      ensures free == if Trims(old(blocks), h, needs) then [h + METADATA + needs] + old(free) else old(free)
      ensures var n := h + METADATA + needs;
        Linked(mem, free) <==>
          (Trims(old(blocks), h, needs) && old(free) == [] ==> old(mem)(n + PREVIOUS) == NULL && old(mem)(n + NEXT) == NULL)
      ensures LiveKept(old(blocks), old(mem), blocks, mem, {h as int}) && OutsideKept(old(mem), mem, base, base + size)
      ensures h !in old(free) ==> Keeps(old(mem), mem, h + METADATA, needs)
    {
      hide Sound, LiveKept, SizeOf, Linked, Put, Prepend, OutsideKept, Keeps, Split, Trimmable, FirstOf;
      TrimReads(mem, blocks, free, extra, Counters(), base, base + size, h, needs);
      var excess := SizeOf(mem(h)) - needs;
      if excess >= METADATA + MINIMUM_PAYLOAD {
        SplitBlock(h, needs, extra);
      } else {
        NothingStored(mem, blocks, base, base + size, h, needs);
      }
    }

    /** allocate_block up to the trimming: h is in use but still listed. */
    method UseBlock(h: Word)
      requires Valid() && h in blocks && blocks[h].free
      modifies this`mem, this`blocks, this`blocksUsed, this`blocksFree, this`bytesUsed, this`bytesFree
      ensures Intact({h as int}) && Linked(mem, free) && blocks == WithStatus(old(blocks), h, false)
      ensures LiveKept(old(blocks), old(mem), blocks, mem, {h as int}) && OutsideKept(old(mem), mem, base, base + size)
    {
      hide Sound, LiveKept, SizeOf, Linked, Put, OutsideKept, FirstOf;
      UseGood(mem, blocks, free, Counters(), base, base + size, h);
      var blockSize := SizeOf(mem(h));
      SetStatus(h, false);
      blocks := WithStatus(blocks, h, false);
      blocksFree := blocksFree - 1;
      blocksUsed := blocksUsed + 1;
      bytesFree := bytesFree - blockSize;
      bytesUsed := bytesUsed + blockSize;
    }

    /** The end of allocate_block: h leaves the list. */
    method Unlist(h: Word)
      requires Intact({h as int}) && Linked(mem, free) && h in blocks && !blocks[h].free
      modifies this`mem, this`firstFree, this`free
      ensures Valid() && LiveKept(blocks, old(mem), blocks, mem, {h as int}) && OutsideKept(old(mem), mem, base, base + size)
    {
      hide Sound, LiveKept, Linked, Spaced, Unlink, OutsideKept, Without, FirstOf;
      ghost var i := RemoveGood(mem, blocks, free, Counters(), base, base + size, h);
      RemoveFreeBlock(h, i);
    }

    /** allocate_block. */
    method AllocateBlock(h: Word, needs: Word) returns (p: Word)
      requires Valid() && h in blocks && blocks[h].free
      requires MINIMUM_PAYLOAD <= needs <= blocks[h].size && needs % 4 == 0
      modifies this`mem, this`firstFree, this`free, this`blocks
      modifies this`blocksUsed, this`blocksFree, this`bytesUsed, this`bytesFree
      ensures Valid() && p == h + METADATA && blocks == Trimmed(WithStatus(old(blocks), h, false), h, needs)
      ensures LiveKept(old(blocks), old(mem), blocks, mem, {}) && OutsideKept(old(mem), mem, base, base + size)
    {
      hide Sound, LiveKept, Linked, OutsideKept, Keeps, Trimmed, Trims, FirstOf;
      UseBlock(h);
      label L:
      LentIsListed(mem, blocks, free, Counters(), base, base + size, h);
      TrimmedUsed(blocks, h, needs);
      TrimBlockIfPossible(h, needs, {h as int});
      label M:
      Unlist(h);
      AllocatedKept(old(blocks), old(mem), old@L(blocks), old@L(mem), old@M(blocks), old@M(mem), blocks, mem, h);
      OutsideKeptTransitive(old(mem), old@L(mem), old@M(mem), base, base + size);
      OutsideKeptTransitive(old(mem), old@M(mem), mem, base, base + size);
      p := h + METADATA;
    }

    /** The search of equiv_malloc: the first free block in list order of least sufficient size. */
    method FindBest(needs: Word) returns (best: Word)
      requires Valid() && free != [] && needs > 0
      ensures best == NULL <==> NothingFits(blocks, free, needs)
      ensures best != NULL ==> FitsBest(blocks, free, needs, best)
    {
      hide Sound, SizeOf, Linked;
      best := NULL;
      var bestDifference: Word := SIZE_MAX;
      var current := firstFree;
      ghost var j: nat := 0;
      ghost var b: nat := 0;
      while true
        invariant j < |free| && current == free[j]
        invariant best == NULL ==> bestDifference == SIZE_MAX && forall i :: 0 <= i < j ==> SizeAt(blocks, free, i) < needs
        invariant best != NULL ==> b < j && free[b] == best && needs <= SizeAt(blocks, free, b) == bestDifference + needs
        invariant best != NULL ==> forall i :: 0 <= i < j && SizeAt(blocks, free, i) >= needs ==>
          SizeAt(blocks, free, b) <= SizeAt(blocks, free, i) && (i < b ==> SizeAt(blocks, free, b) < SizeAt(blocks, free, i))
        decreases |free| - j
      {
        ListRead(mem, blocks, free, Counters(), base, base + size, j);
        var blockSize := SizeOf(mem(current));
        if blockSize >= needs && blockSize - needs < bestDifference {
          bestDifference := blockSize - needs;
          best := current;
          b := j;
        }
        var next := mem(current + NEXT);
        if next == NULL { break; }
        current := next;
        j := j + 1;
      }
      assert j == |free| - 1;
      assert best != NULL ==> BestFit(blocks, free, needs, b);
    }

    /** equiv_malloc. The search starts by reading the header of the first free block, whether or not there is one. */
    method EquivMalloc(requested: Word) returns (o: Outcome)
      requires Valid()
      modifies this`mem, this`firstFree, this`free, this`blocks
      modifies this`blocksUsed, this`blocksFree, this`bytesUsed, this`bytesFree
      ensures Valid()
      ensures Granted(old(blocks), blocks, requested, o)
      ensures Allocation(old(blocks), old(free), blocks, requested, o)
      ensures o == Fault || o == Returned(NULL) ==> mem == old(mem) && free == old(free)
      ensures LiveKept(old(blocks), old(mem), blocks, mem, {}) && OutsideKept(old(mem), mem, base, base + size)
    {
      hide Sound, Linked, LiveKept, OutsideKept, FitsBest, NothingFits, FirstOf, Roundup, Trimmed, Granted;
      KeptRefl(mem, blocks, base, base + size);
      o := Returned(NULL);
      if 0 < requested <= MAX_REQUEST_SIZE {
        var r := requested;
        if r < MINIMUM_PAYLOAD {
          r := MINIMUM_PAYLOAD;
        }
        RoundupIs(r);
        var needs: Word := Roundup(r, ALIGNMENT);
        ListStart(mem, blocks, free, Counters(), base, base + size);
        if firstFree == NULL {
          o := Fault;
        } else {
          var best := FindBest(needs);
          if best != NULL {
            BestFitIsFree(mem, blocks, free, Counters(), base, base + size, needs, best);
            AllocatedSize(blocks, best, needs);
            var p := AllocateBlock(best, needs);
            o := Returned(p);
          }
        }
      }
      AllocationGrants(old(mem), old(blocks), old(free), old(Counters()), base, base + size, blocks, requested, o);
    }

    /** A pointer that equiv_malloc or equiv_realloc gave out and that is still in use. */
    ghost predicate InUse(ptr: Word)
      reads this
    {
      ptr - METADATA in blocks && !blocks[ptr - METADATA].free && ptr - METADATA >= 0
    }

    /** equiv_free up to the coalescing. */
    method MarkFree(h: Word)
      requires Valid() && h in blocks && !blocks[h].free
      modifies this`mem, this`firstFree, this`free, this`blocks
      modifies this`blocksUsed, this`blocksFree, this`bytesUsed, this`bytesFree
      ensures Intact({}) && blocks == WithStatus(old(blocks), h, true) && free == [h] + old(free)
      ensures old(free) == [] ==> free == [h]
      ensures Linked(mem, free) <==> old(free) != [] || (old(mem)(h + PREVIOUS) == NULL && old(mem)(h + NEXT) == NULL)
      ensures LiveKept(old(blocks), old(mem), blocks, mem, {h as int}) && OutsideKept(old(mem), mem, base, base + size)
    {
      hide Sound, LiveKept, SizeOf, Linked, FirstOf, Put, Prepend, OutsideKept, OnlyLinks, Spaced, WithStatus;
      FreeGood(mem, blocks, free, Counters(), base, base + size, h);
      var n := SizeOf(mem(h));
      SetStatus(h, true);
      AppendFreeBlock(h);
      blocks := WithStatus(blocks, h, true);
      blocksUsed := blocksUsed - 1;
      blocksFree := blocksFree + 1;
      bytesFree := bytesFree + n;
      bytesUsed := bytesUsed - n;
    }

    /** equiv_free. On an empty list the links of the freed block are whatever its payload held. */
    method EquivFree(ptr: Word)
      requires Valid() && (ptr != NULL ==> InUse(ptr))
      modifies this`mem, this`firstFree, this`free, this`blocks
      modifies this`blocksUsed, this`blocksFree, this`bytesUsed, this`bytesFree
      ensures ptr == NULL ==> Valid() && mem == old(mem) && blocks == old(blocks) && free == old(free)
      ensures ptr != NULL ==> Intact({})
      ensures ptr != NULL ==>
        (Valid() <==> old(free) != [] || (old(mem)(ptr - METADATA + PREVIOUS) == NULL && old(mem)(ptr - METADATA + NEXT) == NULL))
      ensures ptr != NULL ==>
        var h := ptr - METADATA; Freed(old(blocks), blocks, h, base + size) && LiveKept(old(blocks), old(mem), blocks, mem, {h})
      ensures OutsideKept(old(mem), mem, base, base + size)
    {
      hide Sound, LiveKept, Absorbed, Linked, RunEnd, FirstOf, OutsideKept, Leaves;
      if ptr == NULL {
        OutsideKeptRefl(mem, base, base + size);
        return;
      }
      var h: Word := ptr - METADATA;
      MarkFree(h);
      label L:
      CoalesceRight(h);
      LiveKeptTransitive(old(blocks), old(mem), old@L(blocks), old@L(mem), blocks, mem, {h as int}, {}, {h as int});
      OutsideKeptTransitive(old(mem), old@L(mem), mem, base, base + size);
    }

    /** equiv_realloc: h takes in the free block that follows it. */
    method MergeRight(h: Word, right: Word) returns (ghost v: Word)
      requires Valid() && h in blocks && !blocks[h].free && right in blocks && right == End(blocks, h) && blocks[right].free
      modifies this`mem, this`firstFree, this`free, this`blocks, this`blocksFree, this`bytesUsed, this`bytesFree
      ensures Valid() && blocks == Merged(old(blocks), h) && mem == AbsorbStores(old(mem), h, v, right)
      ensures LiveKept(old(blocks), old(mem), blocks, mem, {h as int}) && OutsideKept(old(mem), mem, base, base + size)
      ensures Keeps(old(mem), mem, h + METADATA, old(blocks)[h].size)
    {
      hide Sound, LiveKept, OutsideKept, Merged, Without, SizeOf, Linked, Spaced, Unlink, Put, Metadata, FirstOf, Keeps;
      ghost var i;
      i, v := AbsorbGood(mem, blocks, free, Counters(), base, base + size, h, right);
      var oldSize := SizeOf(mem(h));
      var additionalSpace := SizeOf(mem(right)) + METADATA;
      RemoveFreeBlock(right, i);
      SetSize(h, oldSize + additionalSpace);
      blocks := Merged(blocks, h);
      blocksFree := blocksFree - 1;
      bytesFree := bytesFree - SizeOf(mem(right));
      bytesUsed := bytesUsed + additionalSpace;
    }

    /** equiv_realloc: absorb the free blocks to the right. */
    method AbsorbRight(h: Word) returns (newSize: Word)
      requires Valid() && h in blocks && !blocks[h].free
      modifies this`mem, this`firstFree, this`free, this`blocks, this`blocksFree, this`bytesUsed, this`bytesFree
      ensures Valid() && Absorbed(old(blocks), blocks, h) && newSize == blocks[h].size && newSize % 2 == 0
      ensures End(blocks, h) == RunEnd(old(blocks), End(old(blocks), h), base + size)
      ensures LiveKept(old(blocks), old(mem), blocks, mem, {h as int}) && OutsideKept(old(mem), mem, base, base + size)
      ensures Keeps(old(mem), mem, h + METADATA, old(blocks)[h].size)
      ensures !HasSpare(old(blocks), base + size, h) && End(blocks, h) != End(old(blocks), h) ==>
        LeftIn(old(mem), old(blocks), old(free), mem, End(old(blocks), h), End(blocks, h))
    {
      hide Sound, LiveKept, OutsideKept, Merged, SizeOf, Linked, Spaced, Metadata, FirstOf, Keeps, Absorbed, RunEnd,
        IsFree, Leaves, LeftIn, HasSpare, AbsorbStores, OnlyLinks;
      NextRead(mem, blocks, free, Counters(), base, base + size, h);
      var right := NextBlock(h, h);
      var absorb := right != NULL && IsFree(mem(right));
      if absorb {
        CoalesceRight(right);
        NeighbourAbsorbs(old(mem), old(blocks), old(free), old(Counters()), mem, blocks, base, base + size, h);
        label L:
        ghost var v := MergeRight(h, right);
        AbsorbLeaves(old(mem), old(blocks), old(free), old(Counters()), old@L(mem), old@L(blocks), old@L(free),
          old@L(Counters()), base, base + size, h, v, right);
        AbsorbedTogether(old(blocks), old(mem), old@L(blocks), old@L(mem), blocks, mem, h);
        OutsideKeptTransitive(old(mem), old@L(mem), mem, base, base + size);
      } else {
        NothingToAbsorb(mem, blocks, free, Counters(), base, base + size, h);
      }
      BlockRead(mem, blocks, free, Counters(), base, base + size, h);
      newSize := SizeOf(mem(h));
    }

    /** memcpy between payloads. */
    method CopyPayload(dst: Word, src: Word, n: nat, ghost d: int)
      requires Valid() && d in blocks && !blocks[d].free && dst == d + METADATA && n <= blocks[d].size
      modifies this`mem
      ensures Valid() && mem == Copied(old(mem), dst, src, n)
      ensures LiveKept(blocks, old(mem), blocks, mem, {d}) && OutsideKept(old(mem), mem, base, base + size)
    {
      hide Sound, LiveKept, OutsideKept, Linked;
      mem := Copied(mem, dst, src, n);
      PayloadWritten(old(mem), mem, blocks, free, Counters(), base, base + size, d);
    }

    /** equiv_realloc: find a new place, move the data there and free the old block. */
    method Move(oldPtr: Word, oldSize: Word, needs: Word) returns (o: Outcome)
      requires Valid() && InUse(oldPtr) && oldSize == blocks[oldPtr - METADATA].size < needs <= MAX_REQUEST_SIZE
      requires MINIMUM_PAYLOAD <= needs && needs % 8 == 0
      modifies this`mem, this`firstFree, this`free, this`blocks
      modifies this`blocksUsed, this`blocksFree, this`bytesUsed, this`bytesFree
      ensures o == Fault <==> !HasFree(old(blocks))
      ensures o == Returned(NULL) <==> HasFree(old(blocks)) && NothingFits(old(blocks), old(free), needs)
      ensures o == Fault || o == Returned(NULL) ==> Valid() && mem == old(mem) && blocks == old(blocks)
      ensures o != Fault && o.p != NULL ==>
        && InUse(o.p) && o.p - METADATA != oldPtr - METADATA && blocks[o.p - METADATA].size >= needs
        && Moved(old(mem), mem, oldPtr, o.p, oldSize) && Intact({})
        && LiveKept(old(blocks), old(mem), blocks, mem, {oldPtr - METADATA})
      ensures o != Fault && o.p != NULL ==>
        var d := o.p - METADATA;
        && d in old(blocks) && old(blocks)[d].free && FitsBest(old(blocks), old(free), needs, d)
        && (Valid() <==> HasFree(Trimmed(WithStatus(old(blocks), d, false), d, needs))
                         || (old(mem)(oldPtr - METADATA + PREVIOUS) == NULL && old(mem)(oldPtr - METADATA + NEXT) == NULL))
      ensures HasTwoFree(old(blocks)) ==> o != Fault && Valid()
      ensures OutsideKept(old(mem), mem, base, base + size)
    {
      hide Sound, LiveKept, OutsideKept, Linked, Freed, FitsBest, NothingFits, Moved, Copied, Trimmed, FirstOf,
        HasFree, HasTwoFree;
      NeedsOf(needs);
      ListEmpty(mem, blocks, free, Counters(), base, base + size);
      TwoAreOne(blocks);
      ghost var h := oldPtr - METADATA;
      o := EquivMalloc(needs);
      if o == Fault || o.p == NULL { return; }
      label L:
      ghost var d := o.p - METADATA;
      AnotherFree(old(blocks), blocks, d, needs);
      ListEmpty(mem, blocks, free, Counters(), base, base + size);
      KeptBlock(old(blocks), old(mem), blocks, mem, {}, h);
      CopyPayload(o.p, oldPtr, oldSize, d);
      label M:
      BlockRead(mem, blocks, free, Counters(), base, base + size, h);
      EquivFree(oldPtr);
      MovedData(old(blocks), old(mem), old@L(blocks), old@L(mem), old@M(mem), blocks, mem, h, d, oldPtr, o.p, oldSize);
      OutsideKeptTransitive(old(mem), old@L(mem), old@M(mem), base, base + size);
      OutsideKeptTransitive(old(mem), old@M(mem), mem, base, base + size);
    }

    /** equiv_realloc when the block is too small. */
    method Grow(oldPtr: Word, needs: Word) returns (o: Outcome)
      requires Valid() && InUse(oldPtr) && blocks[oldPtr - METADATA].size < needs <= MAX_REQUEST_SIZE
      requires MINIMUM_PAYLOAD <= needs && needs % 8 == 0
      modifies this`mem, this`firstFree, this`free, this`blocks
      modifies this`blocksUsed, this`blocksFree, this`bytesUsed, this`bytesFree
      ensures Grown(old(mem), old(blocks), mem, blocks, oldPtr, needs, base + size, o)
      ensures HasTwoSpares(old(blocks), base + size, oldPtr - METADATA) ==> Valid()
      ensures ListKept(old(mem), old(blocks), old(free), oldPtr, needs, base + size, o) <==> Valid()
      ensures OutsideKept(old(mem), mem, base, base + size)
      ensures Intact({})
    {
      hide Sound, LiveKept, OutsideKept, Linked, Keeps, Moved, Absorbed, RunEnd, FirstOf, Trimmed, HasFree,
        HasTwoFree, HasSpare, HasTwoSpares, NoSpareFits, NothingFits, Grown, LeftIn, KeptInPlace, KeptByMove, WithStatus,
        Trims, Spare, Roundup, Needs, SizeOf, Spaced, BestSpare, FitsBest;
      var h: Word := oldPtr - METADATA;
      var newSize := AbsorbRight(h);
      AfterAbsorbing(old(mem), old(blocks), old(free), old(Counters()), mem, blocks, free, Counters(), base,
        base + size, h, needs);
      label L:
      if needs <= newSize {
        UsedUnlistedIn(mem, blocks, free, Counters(), base, base + size, h);
        TrimBlockIfPossible(h, needs, {});
        o := Returned(oldPtr);
        GrownInPlace(old(mem), old(blocks), old@L(mem), old@L(blocks), mem, blocks, oldPtr, needs, base + size);
        InPlaceKept(old(mem), old(blocks), old(free), old(Counters()), old@L(mem), old@L(blocks), old@L(free), base,
          base + size, h, needs, Linked(mem, free));
      } else {
        o := Move(oldPtr, newSize, needs);
        if o != Fault && o.p != NULL {
          BestFitIsBestSpare(old(mem), old(blocks), old(free), old(Counters()), old@L(mem), old@L(blocks), old@L(free),
            old@L(Counters()), base, base + size, h, needs, o.p - METADATA);
          MoveKept(old(mem), old(blocks), old(free), old(Counters()), old@L(mem), old@L(blocks), base, base + size, h,
            o.p - METADATA, needs, Linked(mem, free));
        }
        GrownByMove(old(mem), old(blocks), old@L(mem), old@L(blocks), old@L(free), mem, blocks, oldPtr, needs,
          base + size, o);
      }
      OutsideKeptTransitive(old(mem), old@L(mem), mem, base, base + size);
    }

    /** equiv_realloc. */
    method EquivRealloc(oldPtr: Word, newSize: Word) returns (o: Outcome)
      requires Valid() && (oldPtr != NULL ==> InUse(oldPtr))
      modifies this`mem, this`firstFree, this`free, this`blocks
      modifies this`blocksUsed, this`blocksFree, this`bytesUsed, this`bytesFree
      ensures oldPtr == NULL ==>
        Valid() && Allocation(old(blocks), old(free), blocks, newSize, o) && LiveKept(old(blocks), old(mem), blocks, mem, {})
      ensures oldPtr != NULL && newSize == 0 ==>
        var h := oldPtr - METADATA;
        && o == Returned(NULL) && Intact({}) && Freed(old(blocks), blocks, h, base + size)
        && LiveKept(old(blocks), old(mem), blocks, mem, {h})
        && (Valid() <==> old(free) != [] || (old(mem)(h + PREVIOUS) == NULL && old(mem)(h + NEXT) == NULL))
      ensures oldPtr != NULL && newSize > MAX_REQUEST_SIZE ==>
        o == Returned(NULL) && Valid() && mem == old(mem) && blocks == old(blocks)
      ensures oldPtr != NULL && 0 < newSize <= MAX_REQUEST_SIZE ==>
        var h := oldPtr - METADATA; var needs := Roundup(newSize, ALIGNMENT);
        && newSize <= needs
        && (old(blocks)[h].size >= needs ==> o == Returned(oldPtr) && Valid() && mem == old(mem) && blocks == old(blocks))
        && (old(blocks)[h].size < needs ==>
              && Grown(old(mem), old(blocks), mem, blocks, oldPtr, needs, base + size, o) && Intact({})
              && (Valid() <==> ListKept(old(mem), old(blocks), old(free), oldPtr, needs, base + size, o))
              && (HasTwoSpares(old(blocks), base + size, h) ==> Valid()))
      ensures OutsideKept(old(mem), mem, base, base + size)
    {
      hide Sound, LiveKept, OutsideKept, Linked, Allocation, Freed, Grown, ListKept, HasSpare, HasTwoSpares, FirstOf,
        Roundup, SizeOf;
      KeptRefl(mem, blocks, base, base + size);
      if oldPtr == NULL {
        o := EquivMalloc(newSize);
        return;
      }
      if newSize == 0 {
        EquivFree(oldPtr);
        return Returned(NULL);
      }
      var h: Word := oldPtr - METADATA;
      if newSize > MAX_REQUEST_SIZE { return Returned(NULL); }
      RoundupIs(newSize);
      var needs: Word := Roundup(newSize, ALIGNMENT);
      BlockRead(mem, blocks, free, Counters(), base, base + size, h);
      if SizeOf(mem(h)) >= needs { return Returned(oldPtr); }
      o := Grow(oldPtr, needs);
    }

    /** The user of a block writes a word within its payload. */
    method WritePayload(ptr: Word, q: Word, v: Word)
      requires Valid() && InUse(ptr) && ptr <= q && q + 4 <= ptr + blocks[ptr - METADATA].size
      modifies this`mem
      ensures Valid() && mem == Put(old(mem), q, v) && LiveKept(blocks, old(mem), blocks, mem, {ptr - METADATA})
    {
      hide Sound, LiveKept, Linked;
      mem := Put(mem, q, v);
      PayloadWritten(old(mem), mem, blocks, free, Counters(), base, base + size, ptr - METADATA);
    }

    /** The loop of validate_heap over the free list. */
    method CountFreeList() returns (allFree: bool, nFree: int)
      requires Valid() && free != []
      ensures allFree && nFree == |free|
    {
      hide Sound, Linked, SizeOf, IsFree;
      nFree := 0;
      var current := firstFree;
      while true
        invariant nFree < |free| && 0 <= nFree && current == free[nFree]
        decreases |free| - nFree
      {
        ListRead(mem, blocks, free, Counters(), base, base + size, nFree);
        if !IsFree(mem(current)) { return false, nFree; }
        nFree := nFree + 1;
        var next := mem(current + NEXT);
        if next == NULL { break; }
        current := next;
      }
      return true, nFree;
    }

    /** The loop of validate_heap over all blocks. */
    method CheckSizes() returns (ok: bool)
      requires Valid()
      ensures ok
    {
      hide Sound, Linked, SizeOf;
      HeapStart(mem, blocks, free, Counters(), base, base + size);
      var current := base;
      while true
        invariant current in blocks
        decreases base + size - current
      {
        BlockRead(mem, blocks, free, Counters(), base, base + size, current);
        NextRead(mem, blocks, free, Counters(), base, base + size, current);
        var n := SizeOf(mem(current));
        if n >= size || n == 0 { return false; }
        var next := NextBlock(current, current);
        if next == NULL { break; }
        current := next;
      }
      return true;
    }

    /** validate_heap: 1 for a well-formed heap, provided that it has a free block to begin with. */
    method ValidateHeap() returns (v: Verdict)
      requires Valid()
      ensures v == if free == [] then NullRead else Healthy
    {
      hide Sound, Linked, FirstOf;
      Accounts(mem, blocks, free, Counters(), base, base + size);
      ListStart(mem, blocks, free, Counters(), base, base + size);
      var headerBytes := (blocksUsed + blocksFree) * METADATA;
      var payloadBytes := bytesUsed + bytesFree;
      if blocksUsed == 0 && bytesUsed > 0 { return Broken; }
      if blocksFree == 0 && bytesFree > 0 { return Broken; }
      if headerBytes + payloadBytes != size { return Broken; }
      if firstFree == NULL { return NullRead; }
      var allFree, nFree := CountFreeList();
      if !allFree || nFree != blocksFree { return Broken; }
      var sizesOk := CheckSizes();
      if !sizesOk { return Broken; }
      return Healthy;
    }
  }

  /** Payloads in use lie within the heap and do not overlap, so what is written in one is never seen in another. */
  lemma PayloadsDisjoint(heap: Heap, p: Word, q: Word)
    requires heap.Valid() && heap.InUse(p) && heap.InUse(q)
    ensures var n := heap.blocks[p - METADATA].size; var m := heap.blocks[q - METADATA].size;
      && heap.base < p && p + n <= heap.base + heap.size && n >= MINIMUM_PAYLOAD
      && (p != q ==> p + n < q || q + m < p)
  {
    hide Chained, Linked, Headers, Listed, Spaced, Walk;
  }

  /** A free block n that is large enough is found, so equiv_malloc takes a block that is free and large enough. */
  lemma SomethingFits(mem: WordMemory, blocks: Blocks, free: seq<Word>, t: Totals, lo: int, hi: int, needs: int, n: int)
    requires Sound(mem, blocks, free, {}, t, lo, hi) && n in blocks && blocks[n].free && blocks[n].size >= needs
    ensures free != [] && !NothingFits(blocks, free, needs)
  {
    hide Tiling, Headers, Walk, Spaced;
    var i := ListIndex(blocks, free, n);
    assert SizeAt(blocks, free, i) >= needs;
  }

  /** The only free block is the one that is taken. */
  lemma TakesOnlyFree(mem: WordMemory, blocks: Blocks, free: seq<Word>, t: Totals, lo: int, hi: int, b: Blocks,
          requested: Word, o: Outcome, n: int)
    requires Sound(mem, blocks, free, {}, t, lo, hi) && Allocation(blocks, free, b, requested, o)
    requires n in blocks && blocks[n].free && forall a :: a in blocks && blocks[a].free ==> a == n
    requires 0 < requested <= MAX_REQUEST_SIZE && Needs(requested) <= blocks[n].size
    ensures o == Returned(n + METADATA) && b == Trimmed(WithStatus(blocks, n, false), n, Needs(requested))
  {
    SomethingFits(mem, blocks, free, t, lo, hi, Needs(requested), n);
    hide Sound, FitsBest, NothingFits, Trimmed, WithStatus, Needs;
  }

  /** Taking all of the smallest heap. */
  lemma SmallestTaken(mem: WordMemory, blocks: Blocks, free: seq<Word>, t: Totals, start: Word, b: Blocks, o: Outcome)
    requires Sound(mem, blocks, free, {}, t, start, start + 28) && blocks == Whole(start, SizeOf(24))
    requires Allocation(blocks, free, b, 24, o)
    ensures o == Returned(start + METADATA) && start in b && !b[start].free && b[start].size == 24 && !HasFree(b)
  {
    hide Sound, Allocation;
    NeedsOf(24);
    TakesOnlyFree(mem, blocks, free, t, start, start + 28, b, 24, o, start);
  }

  /** A full heap: the smallest one there is, all of it allocated. Now equiv_malloc reads through NULL, and so does
      validate_heap, and once the user has written anything but 0 at the beginning of the block, freeing it leaves a
      heap that is not well formed. */
  method FullHeap(heap: Heap, start: Word, v: Word) returns (full: Outcome, verdict: Verdict)
    requires start > 0 && start % 4 == 0 && start + 28 <= TWO_TO_THE_32 && v != NULL
    modifies heap
    ensures full == Fault && verdict == NullRead
    ensures heap.Intact({}) && !heap.Valid()
  {
    hide Sound, Linked, LiveKept, OutsideKept, Allocation, Freed, NothingFits, FirstOf, Whole, SizeOf, HasFree;
    var ok := heap.Init(start, 28);
    label L:
    var o := heap.EquivMalloc(24);
    SmallestTaken(old@L(heap.mem), old@L(heap.blocks), old@L(heap.free), old@L(heap.Counters()), start, heap.blocks, o);
    ListEmpty(heap.mem, heap.blocks, heap.free, heap.Counters(), start, start + 28);
    verdict := heap.ValidateHeap();
    label M:
    full := heap.EquivMalloc(1);
    AllocationFaults(old@M(heap.blocks), heap.blocks, full);
    heap.WritePayload(o.p, o.p, v);
    heap.EquivFree(o.p);
  }

  lemma AllocationFaults(b0: Blocks, b: Blocks, o: Outcome)
    requires Allocation(b0, [], b, 1, o)
    ensures o == Fault && b == b0
  {
    hide FitsBest, NothingFits, Trimmed, WithStatus, Needs;
  }

  /** Payloads in use are word aligned. */
  lemma PayloadsAligned(heap: Heap, p: Word)
    requires heap.Valid() && heap.InUse(p)
    ensures p % 4 == 0
  {
    hide Tiling, Linked, Headers, Listed, Spaced, Walk;
  }

  /** The first allocation from a heap of two free regions' size, seen by the second. */
  lemma FirstTaken(mem: WordMemory, blocks: Blocks, free: seq<Word>, t: Totals, start: Word, heapSize: Word, b: Blocks,
          first: Word, second: Word, o: Outcome)
    requires Sound(mem, blocks, free, {}, t, start, start + heapSize) && blocks == Whole(start, SizeOf(heapSize - METADATA))
    requires Even(heapSize) && heapSize >= 28 && 0 < first <= MAX_REQUEST_SIZE
    requires METADATA + Needs(first) + METADATA + Needs(second) <= heapSize
    requires Allocation(blocks, free, b, first, o)
    ensures o == Returned(start + METADATA)
    ensures var n := start + METADATA + Needs(first);
      && n in b && b[n].free && b[n].size >= Needs(second) && forall a :: a in b && b[a].free ==> a == n
  {
    hide Sound, Allocation, Needs;
    NeedsIs(first);
    NeedsIs(second);
    EvenSize(heapSize - METADATA);
    hide SizeOf;
    TakesOnlyFree(mem, blocks, free, t, start, start + heapSize, b, first, o, start);
  }

  /** But two allocations in a row are never both aligned to 8 bytes, wherever the heap begins. */
  method TwoAllocations(heap: Heap, start: Word, heapSize: Word, first: Word, second: Word) returns (p: Word, q: Word)
    requires start > 0 && start % 4 == 0 && start + heapSize <= TWO_TO_THE_32 && Even(heapSize)
    requires 0 < first <= MAX_REQUEST_SIZE && 0 < second <= MAX_REQUEST_SIZE
    requires METADATA + Needs(first) + METADATA + Needs(second) <= heapSize
    modifies heap
    ensures p == start + METADATA && q == p + Needs(first) + METADATA
    ensures p % 8 == 0 <==> start % 8 == 4
    ensures p % 8 == 0 <==> q % 8 == 4
  {
    hide Sound, Linked, LiveKept, OutsideKept, Allocation, FirstOf, Roundup, Needs, Whole, SizeOf, Trimmed, WithStatus;
    NeedsIs(first);
    NeedsIs(second);
    var ok := heap.Init(start, heapSize);
    label L:
    var o := heap.EquivMalloc(first);
    FirstTaken(old@L(heap.mem), old@L(heap.blocks), old@L(heap.free), old@L(heap.Counters()), start, heapSize,
      heap.blocks, first, second, o);
    label M:
    var o' := heap.EquivMalloc(second);
    TakesOnlyFree(old@M(heap.mem), old@M(heap.blocks), old@M(heap.free), old@M(heap.Counters()), start, start + heapSize,
      heap.blocks, second, o', start + METADATA + Needs(first));
    p, q := o.p, o'.p;
    EveryOther(start, Needs(first));
  }

  lemma EveryOther(start: int, n: int)
    requires start % 4 == 0 && n % 8 == 0
    ensures var p := start + METADATA; var q := p + n + METADATA;
      (p % 8 == 0 <==> start % 8 == 4) && (p % 8 == 0 <==> q % 8 == 4)
  {
  }

  lemma NeedsIs(requested: nat)
    ensures Needs(requested) % 8 == 0 && Needs(requested) >= MINIMUM_PAYLOAD && requested <= Needs(requested)
    ensures requested <= MAX_REQUEST_SIZE ==> Needs(requested) <= MAX_REQUEST_SIZE
  {
    RoundupIs(if requested < MINIMUM_PAYLOAD then MINIMUM_PAYLOAD else requested);
    hide Roundup;
  }
}
