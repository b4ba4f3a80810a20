/** equiv-malloc.c on values: what the stores of each step do to a well-formed heap. */
module HeapSteps {
  import opened Words
  import opened HeapLayout

  /** The heap occupies [lo, hi) and its list holds the free blocks, and those in extra. */
  ghost predicate Shaped(mem: WordMemory, blocks: Blocks, free: seq<Word>, extra: set<int>, lo: int, hi: int) {
    && 0 < lo < hi <= TWO_TO_THE_32 && Tiling(blocks, lo, hi) && Aligned(blocks)
    && Headers(mem, blocks) && Listed(blocks, free, extra) && Spaced(free)
  }

  ghost predicate Keeps(mem: WordMemory, mem': WordMemory, p: int, n: int) {
    forall q :: p <= q < p + n ==> mem'(q) == mem(q)
  }

  /** Used blocks, apart from those in except, stay as they are with all of their payload. */
  ghost predicate LiveKept(blocks: Blocks, mem: WordMemory, blocks': Blocks, mem': WordMemory, except: set<int>) {
    forall a :: a in blocks && !blocks[a].free && a !in except ==>
      a in blocks' && blocks'[a] == blocks[a] && Keeps(mem, mem', a + METADATA, blocks[a].size)
  }

  /** Nothing outside the heap is written. */
  ghost predicate OutsideKept(mem: WordMemory, mem': WordMemory, lo: int, hi: int) {
    forall q :: q < lo || q >= hi ==> mem'(q) == mem(q)
  }

  // ---- frames ----

  lemma LiveKeptTransitive(b0: Blocks, m0: WordMemory, b1: Blocks, m1: WordMemory, b2: Blocks, m2: WordMemory,
          e1: set<int>, e2: set<int>, except: set<int>)
    requires LiveKept(b0, m0, b1, m1, e1) && LiveKept(b1, m1, b2, m2, e2) && e1 <= except && e2 <= except
    ensures LiveKept(b0, m0, b2, m2, except)
  {
  }

  lemma OutsideKeptRefl(m: WordMemory, lo: int, hi: int)
    ensures OutsideKept(m, m, lo, hi)
  {
  }

  lemma OutsideKeptTransitive(m0: WordMemory, m1: WordMemory, m2: WordMemory, lo: int, hi: int)
    requires OutsideKept(m0, m1, lo, hi) && OutsideKept(m1, m2, lo, hi)
    ensures OutsideKept(m0, m2, lo, hi)
  {
  }

  /** The links of a block lie within it, clear of every other block. */
  lemma LinksInside(blocks: Blocks, lo: int, hi: int, a: int, b: int, q: int)
    requires Tiling(blocks, lo, hi) && a in blocks && b in blocks && a != b && b <= q < End(blocks, b)
    ensures q != a + PREVIOUS && q != a + NEXT && q != a
  {
    hide Chained;
  }

  lemma OnlyLinksAt(blocks: Blocks, lo: int, hi: int, free: seq<Word>, mem: WordMemory, mem': WordMemory, b: int,
          q: int)
    requires Tiling(blocks, lo, hi) && OnlyLinks(mem, mem', free) && forall i :: 0 <= i < |free| ==> free[i] in blocks
    requires b in blocks && (q == b || (b <= q < End(blocks, b) && b !in free))
    ensures mem'(q) == mem(q)
  {
    forall i | 0 <= i < |free|
      ensures q != free[i] + PREVIOUS && q != free[i] + NEXT
    {
      assert free[i] in free;
      if free[i] != b {
        LinksInside(blocks, lo, hi, free[i], b, q);
      }
    }
  }

  /** Changing links in the list changes no header, no payload of a block that is not listed, and nothing outside. */
  lemma OnlyLinksFrame(blocks: Blocks, lo: int, hi: int, free: seq<Word>, mem: WordMemory, mem': WordMemory)
    requires Tiling(blocks, lo, hi) && OnlyLinks(mem, mem', free) && forall i :: 0 <= i < |free| ==> free[i] in blocks
    ensures forall a :: a in blocks ==> mem'(a) == mem(a)
    ensures forall a :: a in blocks && a !in free ==> Keeps(mem, mem', a + METADATA, blocks[a].size)
    ensures OutsideKept(mem, mem', lo, hi)
  {
    forall b | b in blocks
      ensures mem'(b) == mem(b)
    {
      OnlyLinksAt(blocks, lo, hi, free, mem, mem', b, b);
    }
    forall b, q | b in blocks && b !in free && b + METADATA <= q < b + METADATA + blocks[b].size
      ensures mem'(q) == mem(q)
    {
      OnlyLinksAt(blocks, lo, hi, free, mem, mem', b, q);
    }
    hide Chained, Apart;
  }

  /** Storing to a word that holds none of the list's links. */
  lemma StoreKeepsLinks(mem: WordMemory, free: seq<Word>, p: int, v: Word)
    requires Linked(mem, free) && forall i :: 0 <= i < |free| ==> p != free[i] + PREVIOUS && p != free[i] + NEXT
    ensures Linked(Put(mem, p, v), free)
  {
    forall i | 0 <= i < |free|
      ensures LinkedAt(Put(mem, p, v), free, i)
    {
      assert LinkedAt(mem, free, i);
    }
  }

  lemma HeaderClearOfLinks(blocks: Blocks, lo: int, hi: int, free: seq<Word>, h: int)
    requires Tiling(blocks, lo, hi) && h in blocks && forall i :: 0 <= i < |free| ==> free[i] in blocks
    ensures forall i :: 0 <= i < |free| ==> h != free[i] + PREVIOUS && h != free[i] + NEXT
  {
    forall i | 0 <= i < |free|
      ensures h != free[i] + PREVIOUS && h != free[i] + NEXT
    {
      if free[i] != h {
        LinksInside(blocks, lo, hi, free[i], h, h);
      }
    }
  }

  lemma SpacedPrepend(blocks: Blocks, lo: int, hi: int, free: seq<Word>, h: Word)
    requires 0 < lo && Tiling(blocks, lo, hi) && h in blocks && h !in free && Spaced(free)
    requires forall i :: 0 <= i < |free| ==> free[i] in blocks
    ensures Spaced([h] + free)
  {
    hide Chained;
    var list := [h] + free;
    forall j | 1 <= j < |list|
      ensures list[0] + NEXT < list[j] || list[j] + NEXT < list[0]
    {
      assert list[j] == free[j - 1] && free[j - 1] in free;
    }
  }

  /** A header is written over: the status or the size changes, no payload does. */
  lemma HeaderStoreFrame(mem: WordMemory, blocks: Blocks, lo: int, hi: int, h: int, v: Word)
    requires Tiling(blocks, lo, hi) && h in blocks
    ensures forall a :: a in blocks ==> Keeps(mem, Put(mem, h, v), a + METADATA, blocks[a].size)
    ensures forall a :: a in blocks && a != h ==> Put(mem, h, v)(a) == mem(a)
    ensures OutsideKept(mem, Put(mem, h, v), lo, hi)
  {
    hide Chained;
  }

  // ---- the list ----

  lemma WithoutMembers(free: seq<Word>, i: nat)
    requires Spaced(free) && i < |free|
    ensures forall x :: x in Without(free, i) <==> x in free && x != free[i]
  {
    var rest := Without(free, i);
    forall x | x in free && x != free[i]
      ensures x in rest
    {
      var k :| 0 <= k < |free| && free[k] == x;
      assert rest[if k < i then k else k - 1] == x;
    }
    forall x | x in rest
      ensures x in free && x != free[i]
    {
      var k :| 0 <= k < |rest| && rest[k] == x;
      assert free[if k < i then k else k + 1] == x;
    }
  }

  /** Listed in terms of membership. */
  lemma ListedMembers(blocks: Blocks, free: seq<Word>, extra: set<int>)
    ensures Listed(blocks, free, extra) <==>
      (forall x :: x in free ==> x in blocks && (blocks[x].free || x in extra)) &&
      (forall a :: a in blocks && (blocks[a].free || a in extra) ==> a in free)
  {
    if Listed(blocks, free, extra) {
      forall x | x in free
        ensures x in blocks && (blocks[x].free || x in extra)
      {
        var k :| 0 <= k < |free| && free[k] == x;
      }
    }
    assert forall i :: 0 <= i < |free| ==> free[i] in free;
  }

  lemma ListIndex(blocks: Blocks, free: seq<Word>, a: int) returns (i: nat)
    requires Listed(blocks, free, {}) && a in blocks && blocks[a].free
    ensures i < |free| && free[i] == a
  {
    i :| 0 <= i < |free| && free[i] == a;
  }

  /** What get_size and get_status read from a header. */
  lemma HeaderRead(mem: WordMemory, blocks: Blocks, free: seq<Word>, extra: set<int>, lo: int, hi: int, h: int)
    requires Shaped(mem, blocks, free, extra, lo, hi) && h in blocks
    ensures SizeOf(mem(h)) == blocks[h].size && (IsFree(mem(h)) <==> blocks[h].free)
    ensures lo <= h && h + METADATA + MINIMUM_PAYLOAD <= End(blocks, h) <= hi <= TWO_TO_THE_32
  {
    hide Chained, Apart, Listed, Spaced;
  }

  /** A store to a header leaves the list in order. */
  lemma StoreHeader(mem: WordMemory, blocks: Blocks, free: seq<Word>, lo: int, hi: int, h: int, v: Word)
    requires Shaped(mem, blocks, free, {}, lo, hi) && Linked(mem, free) && h in blocks
    ensures Linked(Put(mem, h, v), free) && Spaced(free)
  {
    HeaderClearOfLinks(blocks, lo, hi, free, h);
    StoreKeepsLinks(mem, free, h, v);
  }

  // ---- coalesce_right ----

  ghost predicate Coalescible(blocks: Blocks, free: seq<Word>, h: int, i: nat) {
    && h in blocks && End(blocks, h) in blocks && blocks[End(blocks, h)].free
    && i < |free| && free[i] == End(blocks, h)
  }

  lemma CoalesceListed(blocks: Blocks, free: seq<Word>, lo: int, hi: int, h: int, i: nat)
    requires Tiling(blocks, lo, hi) && Listed(blocks, free, {}) && Spaced(free) && Coalescible(blocks, free, h, i)
    ensures Listed(Merged(blocks, h), Without(free, i), {})
  {
    hide Chained, Apart;
    WithoutMembers(free, i);
    ListedMembers(blocks, free, {});
    ListedMembers(Merged(blocks, h), Without(free, i), {});
  }

  function CoalesceStores(mem: WordMemory, h: int, metadata: Word, next: int): WordMemory {
    Unlink(Put(mem, h, metadata), next)
  }

  /** What the two stores of one coalescing change, block by block. */
  lemma CoalesceFrame(mem: WordMemory, blocks: Blocks, free: seq<Word>, lo: int, hi: int, h: int, i: nat, v: Word)
    requires Shaped(mem, blocks, free, {}, lo, hi) && Linked(mem, free) && Coalescible(blocks, free, h, i)
    ensures var m := CoalesceStores(mem, h, v, free[i]);
      && Linked(m, Without(free, i)) && Spaced(Without(free, i))
      && (forall a :: a in blocks ==> m(a) == if a == h then v else mem(a))
      && (forall a :: a in blocks && a !in free ==> Keeps(mem, m, a + METADATA, blocks[a].size))
      && OutsideKept(mem, m, lo, hi)
  {
    var m1 := Put(mem, h, v);
    HeaderStoreFrame(mem, blocks, lo, hi, h, v);
    HeaderClearOfLinks(blocks, lo, hi, free, h);
    StoreKeepsLinks(mem, free, h, v);
    UnlinkLinked(m1, free, i);
    OnlyLinksFrame(blocks, lo, hi, free, m1, Unlink(m1, free[i]));
    hide Unlink, Linked, Spaced, Tiling;
  }

  lemma CoalesceStep(mem: WordMemory, blocks: Blocks, free: seq<Word>, lo: int, hi: int, h: int, i: nat)
    requires Shaped(mem, blocks, free, {}, lo, hi) && Linked(mem, free) && Coalescible(blocks, free, h, i)
    ensures 0 <= Metadata(Merged(blocks, h)[h]) < TWO_TO_THE_32
    ensures var m := CoalesceStores(mem, h, Metadata(Merged(blocks, h)[h]), free[i]);
      && Shaped(m, Merged(blocks, h), Without(free, i), {}, lo, hi) && Linked(m, Without(free, i))
      && LiveKept(blocks, mem, Merged(blocks, h), m, {h}) && OutsideKept(mem, m, lo, hi)
      && (!blocks[h].free ==> Keeps(mem, m, h + METADATA, blocks[h].size))
      && m(free[i]) == mem(free[i]) == Metadata(blocks[free[i]])
  {
    hide CoalesceStores, Tiling, Aligned, Linked, Spaced, Keeps;
    MergedTiling(blocks, lo, hi, h);
    CoalesceListed(blocks, free, lo, hi, h, i);
    MergedFits(blocks, lo, hi, h);
    CoalesceFrame(mem, blocks, free, lo, hi, h, i, Metadata(Merged(blocks, h)[h]));
    ListedMembers(blocks, free, {});
  }

  lemma MergedFits(blocks: Blocks, lo: int, hi: int, h: int)
    requires 0 < lo < hi <= TWO_TO_THE_32 && Tiling(blocks, lo, hi) && h in blocks && End(blocks, h) in blocks
    ensures 0 <= Metadata(Merged(blocks, h)[h]) < TWO_TO_THE_32
  {
  }

  /** Some blocks to the right of h, all of them free, became part of h; nothing else changed. */
  ghost predicate Absorbed(b0: Blocks, b: Blocks, h: int) {
    && h in b0 && h in b && b[h].free == b0[h].free && End(b0, h) <= End(b, h)
    && (forall a :: a < h || a >= End(b, h) ==> (a in b <==> a in b0) && (a in b ==> b[a] == b0[a]))
    && (forall a :: h < a < End(b, h) ==> a !in b && (a in b0 ==> b0[a].free))
  }

  lemma AbsorbedRefl(blocks: Blocks, lo: int, hi: int, h: int)
    requires Tiling(blocks, lo, hi) && h in blocks
    ensures Absorbed(blocks, blocks, h)
  {
    hide Chained;
  }

  lemma AbsorbedStep(b0: Blocks, b: Blocks, lo: int, hi: int, h: int)
    requires Absorbed(b0, b, h) && Tiling(b, lo, hi) && End(b, h) in b && b[End(b, h)].free
    ensures Absorbed(b0, Merged(b, h), h)
  {
    hide Chained;
  }

  /** Where the run of free blocks that begins at a ends. */
  ghost function RunEnd(blocks: Blocks, a: int, hi: int): int
    decreases hi - a
  {
    if a in blocks && blocks[a].free && a < End(blocks, a) <= hi then RunEnd(blocks, End(blocks, a), hi) else a
  }

  lemma {:induction false} RunEndAgrees(b0: Blocks, b: Blocks, a: int, hi: int)
    requires forall x :: x >= a ==> (x in b <==> x in b0) && (x in b ==> b[x] == b0[x])
    ensures RunEnd(b0, a, hi) == RunEnd(b, a, hi)
    decreases hi - a
  {
    if a in b && b[a].free && a < End(b, a) <= hi {
      RunEndAgrees(b0, b, End(b, a), hi);
    }
  }

  lemma RunEndStep(blocks: Blocks, lo: int, hi: int, h: int)
    requires Tiling(blocks, lo, hi) && h in blocks && End(blocks, h) in blocks && blocks[End(blocks, h)].free
    ensures RunEnd(blocks, End(blocks, h), hi) == RunEnd(Merged(blocks, h), End(Merged(blocks, h), h), hi)
  {
    var n := End(blocks, h);
    assert lo <= n < End(blocks, n) <= hi;
    MergedChained(blocks, lo, hi, h);
    hide Tiling;
    RunEndAgrees(blocks, Merged(blocks, h), End(blocks, n), hi);
  }

  /** A well-formed heap, and what a walk of it counts. */
  ghost predicate Sound(mem: WordMemory, blocks: Blocks, free: seq<Word>, extra: set<int>, t: Totals, lo: int, hi: int)
  {
    Shaped(mem, blocks, free, extra, lo, hi) && t == Walk(blocks, lo, hi)
  }

  /** One whose free list is in order too. */
  ghost predicate Good(mem: WordMemory, blocks: Blocks, free: seq<Word>, t: Totals, lo: int, hi: int) {
    Sound(mem, blocks, free, {}, t, lo, hi) && Linked(mem, free)
  }

  /** The new metadata of h, as coalesce_right computes it. */
  lemma MergedMetadata(mem: WordMemory, blocks: Blocks, free: seq<Word>, lo: int, hi: int, h: int)
    requires Shaped(mem, blocks, free, {}, lo, hi) && h in blocks && End(blocks, h) in blocks
    ensures var n := End(blocks, h); var size := SizeOf(mem(h)) + (SizeOf(mem(n)) + METADATA);
      0 <= size < TWO_TO_THE_32 - 1 && SizeOf(size) + mem(h) % 2 == Metadata(Merged(blocks, h)[h])
  {
    HeaderRead(mem, blocks, free, {}, lo, hi, h);
    HeaderRead(mem, blocks, free, {}, lo, hi, End(blocks, h));
    hide Tiling, Listed, Spaced;
  }

  lemma CoalesceGood(mem: WordMemory, blocks: Blocks, free: seq<Word>, t: Totals, lo: int, hi: int, h: int, n: Word)
    returns (i: nat, v: Word)
    requires Good(mem, blocks, free, t, lo, hi) && h in blocks && blocks[h].free
    requires n in blocks && n == End(blocks, h) && blocks[n].free
    ensures i < |free| && free[i] == n && Linked(Put(mem, h, v), free) && Spaced(free)
    ensures var size := SizeOf(mem(h)) + (SizeOf(mem(n)) + METADATA);
      0 <= size < TWO_TO_THE_32 - 1 && v == SizeOf(size) + mem(h) % 2
    ensures var m := CoalesceStores(mem, h, v, n);
      && Good(m, Merged(blocks, h), Without(free, i),
              t.(freeBlocks := t.freeBlocks - 1, freeBytes := t.freeBytes + METADATA), lo, hi)
      && LiveKept(blocks, mem, Merged(blocks, h), m, {}) && OutsideKept(mem, m, lo, hi)
      && m(n) == mem(n) == Metadata(blocks[n])
  {
    hide Linked, Walk, CoalesceStores, Keeps, Spaced, OutsideKept, Tiling, Headers;
    i := ListIndex(blocks, free, n);
    MergedMetadata(mem, blocks, free, lo, hi, h);
    v := Metadata(Merged(blocks, h)[h]);
    CoalesceStep(mem, blocks, free, lo, hi, h, i);
    StoreHeader(mem, blocks, free, lo, hi, h, v);
    MergedWalk(blocks, lo, hi, h);
  }

  /** What next_block and get_status find after block h. */
  lemma NextRead(mem: WordMemory, blocks: Blocks, free: seq<Word>, t: Totals, lo: int, hi: int, h: int)
    requires Sound(mem, blocks, free, {}, t, lo, hi) && h in blocks
    ensures h + METADATA + SizeOf(mem(h)) == End(blocks, h) <= hi <= TWO_TO_THE_32 && 0 < lo <= h < End(blocks, h)
    ensures End(blocks, h) < hi ==> End(blocks, h) in blocks
    ensures End(blocks, h) in blocks ==> End(blocks, h) < hi && (IsFree(mem(End(blocks, h))) <==> blocks[End(blocks, h)].free)
  {
    HeaderRead(mem, blocks, free, {}, lo, hi, h);
    assert Follows(blocks, hi, h);
    if End(blocks, h) in blocks {
      HeaderRead(mem, blocks, free, {}, lo, hi, End(blocks, h));
    }
  }

  /** h is not all there is on the list if another block, a, is free. */
  lemma NotOnly(mem: WordMemory, blocks: Blocks, free: seq<Word>, t: Totals, lo: int, hi: int, h: int, a: int)
    requires Sound(mem, blocks, free, {}, t, lo, hi) && a in blocks && blocks[a].free && a != h
    ensures forall x :: free == [x] ==> x != h
  {
    ListedMembers(blocks, free, {});
    hide Tiling, Headers, Walk, Spaced, Listed;
  }

  /** The state of a coalescing of block h of b0, m0 that has come to b, m. */
  ghost predicate Coalescing(b0: Blocks, m0: WordMemory, b: Blocks, m: WordMemory, lo: int, hi: int, h: int) {
    && Absorbed(b0, b, h) && b[h].free && RunEnd(b, End(b, h), hi) == RunEnd(b0, h, hi)
    && LiveKept(b0, m0, b, m, {}) && OutsideKept(m0, m, lo, hi)
  }

  lemma CoalescingBegin(mem: WordMemory, blocks: Blocks, free: seq<Word>, t: Totals, lo: int, hi: int, h: int)
    requires Sound(mem, blocks, free, {}, t, lo, hi) && h in blocks && blocks[h].free
    ensures Coalescing(blocks, mem, blocks, mem, lo, hi, h)
  {
    AbsorbedRefl(blocks, lo, hi, h);
    hide Apart, Chained;
  }

  lemma CoalescingStep(b0: Blocks, m0: WordMemory, mem: WordMemory, blocks: Blocks, free: seq<Word>, t: Totals, lo: int,
          hi: int, h: int, mem': WordMemory)
    requires Sound(mem, blocks, free, {}, t, lo, hi) && Coalescing(b0, m0, blocks, mem, lo, hi, h)
    requires End(blocks, h) in blocks && blocks[End(blocks, h)].free
    requires LiveKept(blocks, mem, Merged(blocks, h), mem', {}) && OutsideKept(mem, mem', lo, hi)
    ensures Coalescing(b0, m0, Merged(blocks, h), mem', lo, hi, h)
    ensures |Merged(blocks, h)| < |blocks| && h in Merged(blocks, h) && Merged(blocks, h)[h].free
    ensures End(Merged(blocks, h), h) == End(blocks, End(blocks, h))
  {
    hide Tiling, Headers, Listed, Spaced, LiveKept, RunEnd, Walk;
    AbsorbedStep(b0, blocks, lo, hi, h);
    RunEndStep(blocks, lo, hi, h);
    MergedTiling(blocks, lo, hi, h);
    LiveKeptTransitive(b0, m0, blocks, mem, Merged(blocks, h), mem', {}, {}, {});
  }

  lemma CoalescingEnd(mem: WordMemory, b0: Blocks, m0: WordMemory, blocks: Blocks, lo: int, hi: int, h: int)
    requires Coalescing(b0, m0, blocks, mem, lo, hi, h)
    requires End(blocks, h) in blocks ==> !blocks[End(blocks, h)].free
    ensures Absorbed(b0, blocks, h) && blocks[h].free && End(blocks, h) == RunEnd(b0, h, hi)
    ensures LiveKept(b0, m0, blocks, mem, {}) && OutsideKept(m0, mem, lo, hi)
  {
    hide Absorbed, LiveKept, OutsideKept;
  }

  // ---- remove_free_block on its own ----

  /** A block that is listed but not free any more leaves the list. */
  lemma RemoveStep(mem: WordMemory, blocks: Blocks, free: seq<Word>, lo: int, hi: int, i: nat)
    requires i < |free| && free[i] in blocks && !blocks[free[i]].free
    requires Shaped(mem, blocks, free, {free[i]}, lo, hi) && Linked(mem, free)
    ensures var m := Unlink(mem, free[i]);
      && Shaped(m, blocks, Without(free, i), {}, lo, hi) && Linked(m, Without(free, i))
      && LiveKept(blocks, mem, blocks, m, {free[i]}) && OutsideKept(mem, m, lo, hi)
  {
    WithoutMembers(free, i);
    ListedMembers(blocks, free, {free[i]});
    ListedMembers(blocks, Without(free, i), {});
    UnlinkLinked(mem, free, i);
    OnlyLinksFrame(blocks, lo, hi, free, mem, Unlink(mem, free[i]));
    hide Unlink, Linked, Spaced, Tiling, Aligned, Keeps, Without;
  }

  // ---- append_free_block ----

  /** h, a listed block's header not yet in the list, is put in front. */
  lemma PrependFrame(mem: WordMemory, blocks: Blocks, free: seq<Word>, lo: int, hi: int, h: Word)
    requires 0 < lo && Tiling(blocks, lo, hi) && h in blocks && h !in free && Spaced(free)
    requires forall i :: 0 <= i < |free| ==> free[i] in blocks
    ensures var m := Prepend(mem, FirstOf(free), h); var list := [h] + free;
      && Spaced(list)
      && (free != [] && Linked(mem, free) ==> Linked(m, list))
      && (free == [] ==> (Linked(m, list) <==> mem(h + PREVIOUS) == NULL && mem(h + NEXT) == NULL))
      && (Linked(mem, free) ==>
            && (forall a :: a in blocks ==> m(a) == mem(a))
            && OutsideKept(mem, m, lo, hi)
            && (forall a :: a in blocks && a !in list ==> Keeps(mem, m, a + METADATA, blocks[a].size)))
  {
    hide Prepend, Spaced, LinkedAt;
    SpacedPrepend(blocks, lo, hi, free, h);
    PrependGood(mem, free, h);
    if Linked(mem, free) {
      OnlyLinksFrame(blocks, lo, hi, [h] + free, mem, Prepend(mem, FirstOf(free), h));
    }
  }

  /** Apart from h, used blocks are not in the list. */
  lemma UsedUnlisted(blocks: Blocks, list: seq<Word>, free: seq<Word>, extra: set<int>, h: Word)
    requires Listed(blocks, free, extra) && list == [h] + free
    ensures forall a :: a in blocks && !blocks[a].free && a != h && a !in extra ==> a !in list
  {
    ListedMembers(blocks, free, extra);
  }

  // ---- equiv_free, before coalescing ----

  function FreeStores(mem: WordMemory, h: Word, metadata: Word, first: Word): WordMemory {
    Prepend(Put(mem, h, metadata), first, h)
  }

  lemma FreeListed(blocks: Blocks, free: seq<Word>, h: Word)
    requires Listed(blocks, free, {}) && h in blocks && !blocks[h].free
    ensures h !in free && Listed(WithStatus(blocks, h, true), [h] + free, {})
  {
    ListedMembers(blocks, free, {});
    ListedMembers(WithStatus(blocks, h, true), [h] + free, {});
  }

  lemma FreeFrame(mem: WordMemory, blocks: Blocks, free: seq<Word>, lo: int, hi: int, h: Word, v: Word)
    requires 0 < lo && Tiling(blocks, lo, hi) && h in blocks && h !in free
    requires Linked(mem, free) && Spaced(free) && forall i :: 0 <= i < |free| ==> free[i] in blocks
    ensures var m := FreeStores(mem, h, v, FirstOf(free)); var list := [h] + free;
      && Spaced(list) && (Linked(m, list) <==> free != [] || (mem(h + PREVIOUS) == NULL && mem(h + NEXT) == NULL))
      && (forall a :: a in blocks ==> m(a) == if a == h then v else mem(a))
      && (forall a :: a in blocks && a !in list ==> Keeps(mem, m, a + METADATA, blocks[a].size))
      && OutsideKept(mem, m, lo, hi)
  {
    HeaderStoreFrame(mem, blocks, lo, hi, h, v);
    HeaderClearOfLinks(blocks, lo, hi, free, h);
    StoreKeepsLinks(mem, free, h, v);
    PrependFrame(Put(mem, h, v), blocks, free, lo, hi, h);
    hide Prepend, Linked, Spaced, Tiling;
  }

  /** A used block becomes free: the heap stays well formed. */
  lemma FreeShaped(mem: WordMemory, blocks: Blocks, free: seq<Word>, lo: int, hi: int, h: Word, v: Word)
    requires Shaped(mem, blocks, free, {}, lo, hi) && Linked(mem, free)
    requires h in blocks && !blocks[h].free && v == blocks[h].size + 1
    ensures Shaped(FreeStores(mem, h, v, FirstOf(free)), WithStatus(blocks, h, true), [h] + free, {}, lo, hi)
  {
    hide FreeStores, Linked, Spaced, Tiling, Aligned, Keeps, OutsideKept;
    WithStatusTiling(blocks, lo, hi, h, true);
    FreeListed(blocks, free, h);
    FreeFrame(mem, blocks, free, lo, hi, h, v);
  }

  /** But on an empty list the links are not set. */
  lemma FreeKeeps(mem: WordMemory, blocks: Blocks, free: seq<Word>, lo: int, hi: int, h: Word, v: Word)
    requires Shaped(mem, blocks, free, {}, lo, hi) && Linked(mem, free)
    requires h in blocks && !blocks[h].free && v == blocks[h].size + 1
    ensures var m := FreeStores(mem, h, v, FirstOf(free));
      && (Linked(m, [h] + free) <==> free != [] || (mem(h + PREVIOUS) == NULL && mem(h + NEXT) == NULL))
      && LiveKept(blocks, mem, WithStatus(blocks, h, true), m, {h}) && OutsideKept(mem, m, lo, hi)
  {
    hide FreeStores, Linked, Spaced, Tiling, Aligned, Keeps, Headers;
    FreeListed(blocks, free, h);
    FreeFrame(mem, blocks, free, lo, hi, h, v);
    UsedUnlisted(blocks, [h] + free, free, {}, h);
  }

  // ---- trim_block_if_possible ----

  ghost predicate Trimmable(blocks: Blocks, h: int, needs: int) {
    && h in blocks && !blocks[h].free && needs >= MINIMUM_PAYLOAD && needs % 4 == 0
    && blocks[h].size - needs >= METADATA + MINIMUM_PAYLOAD
  }

  /** set_size, make_block (which passes through `stale`) and append_free_block. */
  function TrimStores(mem: WordMemory, h: int, needs: Word, n: Word, stale: Word, metadata: Word,
          first: Word): WordMemory
  {
    Prepend(Put(Put(Put(mem, h, needs), n, stale), n, metadata), first, n)
  }

  lemma TrimListed(blocks: Blocks, free: seq<Word>, extra: set<int>, lo: int, hi: int, h: int, needs: int, n: Word)
    requires Tiling(blocks, lo, hi) && Listed(blocks, free, extra) && Trimmable(blocks, h, needs)
    requires n == h + METADATA + needs && extra <= {h}
    ensures n !in blocks && n !in free && Listed(Split(blocks, h, needs), [n] + free, extra)
  {
    SplitPoint(blocks, lo, hi, h, needs);
    hide Tiling;
    ListedMembers(blocks, free, extra);
    ListedMembers(Split(blocks, h, needs), [n] + free, extra);
  }

  /** The stores to the two headers. */
  lemma TrimHeaders(mem: WordMemory, blocks: Blocks, free: seq<Word>, lo: int, hi: int, h: int, needs: Word, n: Word,
          stale: Word, v: Word)
    requires 0 < lo && Tiling(blocks, lo, hi) && Trimmable(blocks, h, needs) && n == h + METADATA + needs
    requires forall i :: 0 <= i < |free| ==> free[i] in blocks
    ensures var m := Put(Put(Put(mem, h, needs), n, stale), n, v);
      && (Linked(mem, free) ==> Linked(m, free))
      && m(h) == needs && m(n) == v && m(n + PREVIOUS) == mem(n + PREVIOUS) && m(n + NEXT) == mem(n + NEXT)
      && (forall a :: a in blocks && a != h ==> m(a) == mem(a) && Keeps(mem, m, a + METADATA, blocks[a].size))
      && Keeps(mem, m, h + METADATA, needs) && OutsideKept(mem, m, lo, hi)
  {
    HeaderClearOfLinks(blocks, lo, hi, free, h);
    forall i | 0 <= i < |free|
      ensures n != free[i] + PREVIOUS && n != free[i] + NEXT
    {
      if free[i] != h {
        LinksInside(blocks, lo, hi, free[i], h, n);
      }
    }
    if Linked(mem, free) {
      StoreKeepsLinks(mem, free, h, needs);
      StoreKeepsLinks(Put(mem, h, needs), free, n, stale);
      StoreKeepsLinks(Put(Put(mem, h, needs), n, stale), free, n, v);
    }
    hide Chained, Linked;
  }

  /** What all the stores change, block by block. */
  lemma TrimFrame(mem: WordMemory, blocks: Blocks, free: seq<Word>, lo: int, hi: int, h: int, needs: Word, n: Word,
          stale: Word, v: Word)
    requires 0 < lo && Tiling(blocks, lo, hi) && Aligned(blocks) && Trimmable(blocks, h, needs) && n == h + METADATA + needs
    requires Linked(mem, free) && Spaced(free) && n !in free && forall i :: 0 <= i < |free| ==> free[i] in blocks
    ensures var m := TrimStores(mem, h, needs, n, stale, v, FirstOf(free)); var list := [n] + free;
      && Spaced(list) && (Linked(m, list) <==> free != [] || (mem(n + PREVIOUS) == NULL && mem(n + NEXT) == NULL))
      && m(h) == needs && m(n) == v && (forall a :: a in blocks && a != h ==> m(a) == mem(a))
      && (forall a :: a in blocks && a != h && a !in list ==> Keeps(mem, m, a + METADATA, blocks[a].size))
      && (h !in list ==> Keeps(mem, m, h + METADATA, needs)) && OutsideKept(mem, m, lo, hi)
  {
    var blocks' := Split(blocks, h, needs);
    var m1 := Put(Put(Put(mem, h, needs), n, stale), n, v);
    SplitTiling(blocks, lo, hi, h, needs);
    TrimHeaders(mem, blocks, free, lo, hi, h, needs, n, stale, v);
    PrependFrame(m1, blocks', free, lo, hi, n);
    hide Prepend, Put, Linked, Spaced, Tiling, Aligned;
    forall a | a in blocks && a != h && a !in [n] + free
      ensures Keeps(mem, Prepend(m1, FirstOf(free), n), a + METADATA, blocks[a].size)
    {
      assert a in blocks' && blocks'[a] == blocks[a];
    }
  }

  /** Splitting keeps the heap well formed. */
  lemma TrimShaped(mem: WordMemory, blocks: Blocks, free: seq<Word>, extra: set<int>, lo: int, hi: int, h: int,
          needs: Word, n: Word, stale: Word, v: Word)
    requires Shaped(mem, blocks, free, extra, lo, hi) && Linked(mem, free) && extra <= {h}
    requires Trimmable(blocks, h, needs) && n == h + METADATA + needs && v == blocks[h].size - needs - METADATA + 1
    ensures var m := TrimStores(mem, h, needs, n, stale, v, FirstOf(free));
      Shaped(m, Split(blocks, h, needs), [n] + free, extra, lo, hi)
  {
    hide TrimStores, Linked, Spaced, Tiling, Aligned, Keeps, OutsideKept;
    SplitTiling(blocks, lo, hi, h, needs);
    TrimListed(blocks, free, extra, lo, hi, h, needs, n);
    TrimFrame(mem, blocks, free, lo, hi, h, needs, n, stale, v);
  }

  /** But on an empty list the links of the new block are not set. */
  lemma TrimKeeps(mem: WordMemory, blocks: Blocks, free: seq<Word>, extra: set<int>, lo: int, hi: int, h: int,
          needs: Word, n: Word, stale: Word, v: Word)
    requires Shaped(mem, blocks, free, extra, lo, hi) && Linked(mem, free) && extra <= {h}
    requires Trimmable(blocks, h, needs) && n == h + METADATA + needs && v == blocks[h].size - needs - METADATA + 1
    ensures var m := TrimStores(mem, h, needs, n, stale, v, FirstOf(free));
      && (Linked(m, [n] + free) <==> free != [] || (mem(n + PREVIOUS) == NULL && mem(n + NEXT) == NULL))
      && LiveKept(blocks, mem, Split(blocks, h, needs), m, {h}) && OutsideKept(mem, m, lo, hi)
      && (h !in free ==> Keeps(mem, m, h + METADATA, needs))
  {
    hide TrimStores, Linked, Spaced, Tiling, Aligned, Keeps, Headers;
    TrimListed(blocks, free, extra, lo, hi, h, needs, n);
    TrimFrame(mem, blocks, free, lo, hi, h, needs, n, stale, v);
    UsedUnlisted(blocks, [n] + free, free, extra, n);
  }

  // ---- set_status(header, STATUS_USED) ----

  lemma UseListed(blocks: Blocks, free: seq<Word>, h: int)
    requires Listed(blocks, free, {}) && h in blocks && blocks[h].free
    ensures Listed(WithStatus(blocks, h, false), free, {h})
  {
    ListedMembers(blocks, free, {});
    ListedMembers(WithStatus(blocks, h, false), free, {h});
  }

  lemma UseStep(mem: WordMemory, blocks: Blocks, free: seq<Word>, lo: int, hi: int, h: int)
    requires Shaped(mem, blocks, free, {}, lo, hi) && Linked(mem, free) && h in blocks && blocks[h].free
    ensures 0 <= blocks[h].size < TWO_TO_THE_32
    ensures var m := Put(mem, h, blocks[h].size); var blocks' := WithStatus(blocks, h, false);
      && Shaped(m, blocks', free, {h}, lo, hi) && Linked(m, free)
      && LiveKept(blocks, mem, blocks', m, {h}) && OutsideKept(mem, m, lo, hi)
  {
    var blocks' := WithStatus(blocks, h, false);
    WithStatusTiling(blocks, lo, hi, h, false);
    UseListed(blocks, free, h);
    HeaderStoreFrame(mem, blocks, lo, hi, h, blocks[h].size);
    HeaderClearOfLinks(blocks, lo, hi, free, h);
    StoreKeepsLinks(mem, free, h, blocks[h].size);
    hide Linked, Spaced, Tiling, Aligned;
  }

  // ---- the steps with their accounting ----

  /** equiv_free up to the coalescing. */
  lemma FreeGood(mem: WordMemory, blocks: Blocks, free: seq<Word>, t: Totals, lo: int, hi: int, h: Word)
    requires Good(mem, blocks, free, t, lo, hi) && h in blocks && !blocks[h].free
    ensures SizeOf(mem(h)) == blocks[h].size && SizeOf(mem(h)) + 1 < TWO_TO_THE_32 && Spaced([h] + free)
    ensures var m := FreeStores(mem, h, SizeOf(mem(h)) + 1, FirstOf(free)); var size := blocks[h].size;
      && Sound(m, WithStatus(blocks, h, true), [h] + free, {},
               Totals(t.usedBlocks - 1, t.freeBlocks + 1, t.usedBytes - size, t.freeBytes + size), lo, hi)
      && (Linked(m, [h] + free) <==> free != [] || (mem(h + PREVIOUS) == NULL && mem(h + NEXT) == NULL))
      && LiveKept(blocks, mem, WithStatus(blocks, h, true), m, {h}) && OutsideKept(mem, m, lo, hi)
  {
    hide Linked, Walk, FreeStores, LiveKept, Spaced, OutsideKept, Tiling, Headers, Listed;
    HeaderRead(mem, blocks, free, {}, lo, hi, h);
    FreeShaped(mem, blocks, free, lo, hi, h, blocks[h].size + 1);
    FreeKeeps(mem, blocks, free, lo, hi, h, blocks[h].size + 1);
    WithStatusWalk(blocks, lo, hi, h, true);
  }

  /** allocate_block up to the trimming: h is used but still listed. */
  lemma UseGood(mem: WordMemory, blocks: Blocks, free: seq<Word>, t: Totals, lo: int, hi: int, h: Word)
    requires Good(mem, blocks, free, t, lo, hi) && h in blocks && blocks[h].free
    ensures SizeOf(mem(h)) == blocks[h].size && h > 0
    ensures var m := Put(mem, h, SizeOf(mem(h))); var size := blocks[h].size;
      && Sound(m, WithStatus(blocks, h, false), free, {h as int},
               Totals(t.usedBlocks + 1, t.freeBlocks - 1, t.usedBytes + size, t.freeBytes - size), lo, hi)
      && Linked(m, free) && LiveKept(blocks, mem, WithStatus(blocks, h, false), m, {h}) && OutsideKept(mem, m, lo, hi)
  {
    hide Linked, Walk, LiveKept, Spaced, OutsideKept, Tiling, Headers, Listed;
    HeaderRead(mem, blocks, free, {}, lo, hi, h);
    UseStep(mem, blocks, free, lo, hi, h);
    WithStatusWalk(blocks, lo, hi, h, false);
  }

  lemma TrimGood(mem: WordMemory, blocks: Blocks, free: seq<Word>, extra: set<int>, t: Totals, lo: int, hi: int, h: int,
          needs: Word, n: Word, stale: Word, v: Word)
    requires Sound(mem, blocks, free, extra, t, lo, hi) && Linked(mem, free) && extra <= {h}
    requires Trimmable(blocks, h, needs) && n == h + METADATA + needs && v == blocks[h].size - needs - METADATA + 1
    ensures var m := TrimStores(mem, h, needs, n, stale, v, FirstOf(free)); var excess := blocks[h].size - needs;
      && Sound(m, Split(blocks, h, needs), [n] + free, extra,
               Totals(t.usedBlocks, t.freeBlocks + 1, t.usedBytes - excess, t.freeBytes + (excess - METADATA)), lo, hi)
      && (Linked(m, [n] + free) <==> free != [] || (mem(n + PREVIOUS) == NULL && mem(n + NEXT) == NULL))
      && LiveKept(blocks, mem, Split(blocks, h, needs), m, {h}) && OutsideKept(mem, m, lo, hi)
      && (h !in free ==> Keeps(mem, m, h + METADATA, needs))
  {
    hide Linked, Walk, LiveKept, Spaced, OutsideKept, Tiling, Headers, Listed, Keeps, TrimStores;
    TrimShaped(mem, blocks, free, extra, lo, hi, h, needs, n, stale, v);
    TrimKeeps(mem, blocks, free, extra, lo, hi, h, needs, n, stale, v);
    SplitWalk(blocks, lo, hi, h, needs);
  }

  /** The new block does not overlap the listed ones. */
  lemma TrimSpaced(mem: WordMemory, blocks: Blocks, free: seq<Word>, extra: set<int>, t: Totals, lo: int, hi: int,
          h: int, needs: Word, n: Word)
    requires Sound(mem, blocks, free, extra, t, lo, hi) && extra <= {h}
    requires Trimmable(blocks, h, needs) && n == h + METADATA + needs
    ensures Spaced([n] + free)
  {
    hide Headers, Walk, Spaced, Tiling, Aligned, Split;
    TrimListed(blocks, free, extra, lo, hi, h, needs, n);
    SplitTiling(blocks, lo, hi, h, needs);
    SplitHas(blocks, h, needs);
    SpacedPrepend(Split(blocks, h, needs), lo, hi, free, n);
  }

  lemma SplitHas(blocks: Blocks, h: int, needs: int)
    requires h in blocks
    ensures forall a :: a in blocks ==> a in Split(blocks, h, needs)
    ensures h + METADATA + needs in Split(blocks, h, needs)
  {
  }

  /** What trim_block_if_possible reads and computes before it stores. */
  lemma TrimReads(mem: WordMemory, blocks: Blocks, free: seq<Word>, extra: set<int>, t: Totals, lo: int, hi: int,
          h: Word, needs: Word)
    requires Sound(mem, blocks, free, extra, t, lo, hi) && h in blocks && !blocks[h].free
    requires needs >= MINIMUM_PAYLOAD && needs % 4 == 0
    ensures SizeOf(mem(h)) == blocks[h].size && h > 0 && SizeOf(needs) + mem(h) % 2 == needs
    ensures Trims(blocks, h, needs) <==> blocks[h].size - needs >= METADATA + MINIMUM_PAYLOAD
    ensures Trims(blocks, h, needs) ==>
      && Trimmable(blocks, h, needs) && h + METADATA + needs < TWO_TO_THE_32
      && blocks[h].size - needs - METADATA + 1 < TWO_TO_THE_32
      && var rest := blocks[h].size - needs - METADATA; SizeOf(rest) == rest
  {
    HeaderRead(mem, blocks, free, extra, lo, hi, h);
    hide Tiling, Headers, Listed, Spaced;
  }

  lemma RemoveGood(mem: WordMemory, blocks: Blocks, free: seq<Word>, t: Totals, lo: int, hi: int, h: Word)
    returns (i: nat)
    requires Sound(mem, blocks, free, {h as int}, t, lo, hi) && Linked(mem, free) && h in blocks && !blocks[h].free
    ensures i < |free| && free[i] == h && Spaced(free)
    ensures var m := Unlink(mem, h);
      && Sound(m, blocks, Without(free, i), {}, t, lo, hi) && Linked(m, Without(free, i))
      && LiveKept(blocks, mem, blocks, m, {h}) && OutsideKept(mem, m, lo, hi)
  {
    hide Tiling, Linked, LiveKept, OutsideKept, Headers, Spaced, Walk;
    LentIsListed(mem, blocks, free, t, lo, hi, h);
    i :| 0 <= i < |free| && free[i] == h;
    RemoveStep(mem, blocks, free, lo, hi, i);
  }

  lemma LentIsListed(mem: WordMemory, blocks: Blocks, free: seq<Word>, t: Totals, lo: int, hi: int, h: int)
    requires Sound(mem, blocks, free, {h}, t, lo, hi) && h in blocks
    ensures h in free && free != [] && h + METADATA < TWO_TO_THE_32
  {
    hide Chained, Apart, Headers, Walk;
  }

  /** Whether trim_block_if_possible splits h. */
  ghost predicate Trims(blocks: Blocks, h: int, needs: int)
    requires h in blocks
  {
    blocks[h].size - needs >= METADATA + MINIMUM_PAYLOAD
  }

  ghost function Trimmed(blocks: Blocks, h: int, needs: int): Blocks
    requires h in blocks
  {
    if Trims(blocks, h, needs) then Split(blocks, h, needs) else blocks
  }

  lemma TrimmedUsed(blocks: Blocks, h: int, needs: int)
    requires h in blocks && !blocks[h].free && needs >= MINIMUM_PAYLOAD
    ensures h in Trimmed(blocks, h, needs) && !Trimmed(blocks, h, needs)[h].free
  {
  }

  lemma NothingStored(mem: WordMemory, blocks: Blocks, lo: int, hi: int, h: int, needs: int)
    ensures LiveKept(blocks, mem, blocks, mem, {h}) && OutsideKept(mem, mem, lo, hi) && Keeps(mem, mem, h + METADATA, needs)
  {
  }

  /** Three steps of allocate_block that touch no payload but that of h, which was free. */
  lemma AllocatedKept(b0: Blocks, m0: WordMemory, b1: Blocks, m1: WordMemory, b2: Blocks, m2: WordMemory, b3: Blocks,
          m3: WordMemory, h: int)
    requires h in b0 && b0[h].free
    requires LiveKept(b0, m0, b1, m1, {h}) && LiveKept(b1, m1, b2, m2, {h}) && LiveKept(b2, m2, b3, m3, {h})
    ensures LiveKept(b0, m0, b3, m3, {})
  {
    LiveKeptTransitive(b0, m0, b1, m1, b2, m2, {h}, {h}, {h});
    LiveKeptTransitive(b0, m0, b2, m2, b3, m3, {h}, {h}, {h});
  }

  // ---- the search for a free block ----

  function SizeAt(blocks: Blocks, free: seq<Word>, i: nat): int
    requires i < |free|
  {
    if free[i] in blocks then blocks[free[i]].size else 0
  }

  /** The i-th listed block is large enough, none that is large enough is smaller, and none before it is as small. */
  ghost predicate BestFit(blocks: Blocks, free: seq<Word>, needs: int, i: nat) {
    && i < |free| && SizeAt(blocks, free, i) >= needs
    && forall j :: 0 <= j < |free| && SizeAt(blocks, free, j) >= needs ==>
      SizeAt(blocks, free, i) <= SizeAt(blocks, free, j) && (j < i ==> SizeAt(blocks, free, i) < SizeAt(blocks, free, j))
  }

  /** What a walk along the list reads at its i-th block. */
  lemma ListRead(mem: WordMemory, blocks: Blocks, free: seq<Word>, t: Totals, lo: int, hi: int, i: nat)
    requires Good(mem, blocks, free, t, lo, hi) && i < |free|
    ensures free[i] in blocks && blocks[free[i]].free && IsFree(mem(free[i])) && free[i] > NULL
    ensures SizeOf(mem(free[i])) == SizeAt(blocks, free, i) < 0xFFFF_FFFF
    ensures mem(free[i] + NEXT) == NextOf(free, i) && (NextOf(free, i) == NULL <==> i == |free| - 1)
  {
    hide Tiling, Headers, Walk;
    HeaderRead(mem, blocks, free, {}, lo, hi, free[i]);
    assert LinkedAt(mem, free, i);
  }

  /** h is the block that equiv_malloc is to choose. */
  ghost predicate FitsBest(blocks: Blocks, free: seq<Word>, needs: int, h: int) {
    exists i: nat :: BestFit(blocks, free, needs, i) && free[i] == h
  }

  ghost predicate NothingFits(blocks: Blocks, free: seq<Word>, needs: int) {
    forall i :: 0 <= i < |free| ==> SizeAt(blocks, free, i) < needs
  }

  /** A block that fits best is a free block. */
  lemma BestFitIsFree(mem: WordMemory, blocks: Blocks, free: seq<Word>, t: Totals, lo: int, hi: int, needs: int, h: int)
    requires Sound(mem, blocks, free, {}, t, lo, hi) && FitsBest(blocks, free, needs, h)
    ensures h in blocks && blocks[h].free && blocks[h].size >= needs && h > 0
  {
    hide Tiling, Headers, Walk;
    var i: nat :| BestFit(blocks, free, needs, i) && free[i] == h;
  }

  lemma ListStart(mem: WordMemory, blocks: Blocks, free: seq<Word>, t: Totals, lo: int, hi: int)
    requires Sound(mem, blocks, free, {}, t, lo, hi)
    ensures FirstOf(free) == NULL <==> free == []
  {
    hide Tiling, Headers, Walk;
  }

  lemma AllocatedSize(blocks: Blocks, h: int, needs: int)
    requires h in blocks && blocks[h].free && blocks[h].size >= needs
    ensures var b := Trimmed(WithStatus(blocks, h, false), h, needs);
      needs > 0 ==> h in b && !b[h].free && b[h].size >= needs
  {
  }

  lemma KeptRefl(mem: WordMemory, blocks: Blocks, lo: int, hi: int)
    ensures LiveKept(blocks, mem, blocks, mem, {}) && OutsideKept(mem, mem, lo, hi)
  {
  }

  // ---- equiv_realloc ----

  /** remove_free_block and then set_size, as equiv_realloc merges its right neighbour. */
  function AbsorbStores(mem: WordMemory, h: int, metadata: Word, next: int): WordMemory {
    Put(Unlink(mem, next), h, metadata)
  }

  /** The order of the two does not matter: h's header holds no link of the list. */
  lemma AbsorbStoresAgree(mem: WordMemory, free: seq<Word>, i: nat, h: int, v: Word, q: int)
    requires Linked(mem, free) && Spaced(free) && i < |free| && Linked(Put(mem, h, v), free)
    requires forall j :: 0 <= j < |free| ==> h != free[j] + PREVIOUS && h != free[j] + NEXT
    ensures AbsorbStores(mem, h, v, free[i])(q) == CoalesceStores(mem, h, v, free[i])(q)
  {
    UnlinkStores(mem, free, i, q);
    UnlinkStores(Put(mem, h, v), free, i, q);
    hide Unlink, Linked, Spaced;
  }

  lemma SameMemory(m: WordMemory, m': WordMemory, blocks: Blocks, free: seq<Word>, lo: int, hi: int)
    requires Shaped(m, blocks, free, {}, lo, hi) && Linked(m, free) && forall q :: m'(q) == m(q)
    ensures Shaped(m', blocks, free, {}, lo, hi) && Linked(m', free)
  {
    hide Tiling, Spaced, Listed;
    forall i | 0 <= i < |free|
      ensures LinkedAt(m', free, i)
    {
      assert LinkedAt(m, free, i);
    }
  }

  lemma AbsorbStep(mem: WordMemory, blocks: Blocks, free: seq<Word>, lo: int, hi: int, h: int, i: nat, v: Word)
    requires Shaped(mem, blocks, free, {}, lo, hi) && Linked(mem, free) && Coalescible(blocks, free, h, i) && !blocks[h].free
    requires v == Metadata(Merged(blocks, h)[h])
    ensures var m := AbsorbStores(mem, h, v, free[i]);
      && Shaped(m, Merged(blocks, h), Without(free, i), {}, lo, hi) && Linked(m, Without(free, i))
      && LiveKept(blocks, mem, Merged(blocks, h), m, {h}) && OutsideKept(mem, m, lo, hi)
      && Keeps(mem, m, h + METADATA, blocks[h].size) && m(free[i]) == mem(free[i])
    ensures Unlink(mem, free[i])(h) == mem(h)
  {
    CoalesceStep(mem, blocks, free, lo, hi, h, i);
    StoreHeader(mem, blocks, free, lo, hi, h, v);
    HeaderClearOfLinks(blocks, lo, hi, free, h);
    UnlinkStores(mem, free, i, h);
    forall q
      ensures AbsorbStores(mem, h, v, free[i])(q) == CoalesceStores(mem, h, v, free[i])(q)
    {
      AbsorbStoresAgree(mem, free, i, h, v, q);
    }
    hide AbsorbStores, CoalesceStores, Tiling, Linked, Spaced, Headers, Unlink;
    SameMemory(CoalesceStores(mem, h, v, free[i]), AbsorbStores(mem, h, v, free[i]), Merged(blocks, h),
      Without(free, i), lo, hi);
  }

  /** h takes in the free block that follows it. */
  lemma AbsorbGood(mem: WordMemory, blocks: Blocks, free: seq<Word>, t: Totals, lo: int, hi: int, h: int, n: Word)
    returns (i: nat, v: Word)
    requires Good(mem, blocks, free, t, lo, hi) && h in blocks && !blocks[h].free
    requires n in blocks && n == End(blocks, h) && blocks[n].free
    ensures i < |free| && free[i] == n && Spaced(free)
    ensures SizeOf(mem(h)) == blocks[h].size && SizeOf(mem(n)) == blocks[n].size && Unlink(mem, n)(h) == mem(h)
    ensures var size := SizeOf(mem(h)) + (SizeOf(mem(n)) + METADATA);
      0 <= size < TWO_TO_THE_32 - 1 && v == SizeOf(size) + mem(h) % 2
    ensures var m := AbsorbStores(mem, h, v, n);
      && Sound(m, Merged(blocks, h), Without(free, i), {},
               Totals(t.usedBlocks, t.freeBlocks - 1, t.usedBytes + (blocks[n].size + METADATA), t.freeBytes - blocks[n].size), lo, hi)
      && Linked(m, Without(free, i))
      && LiveKept(blocks, mem, Merged(blocks, h), m, {h}) && OutsideKept(mem, m, lo, hi)
      && Keeps(mem, m, h + METADATA, blocks[h].size) && m(n) == mem(n)
  {
    hide Linked, Walk, AbsorbStores, Keeps, Spaced, OutsideKept, Tiling, Headers, Unlink;
    i := ListIndex(blocks, free, n);
    HeaderRead(mem, blocks, free, {}, lo, hi, h);
    HeaderRead(mem, blocks, free, {}, lo, hi, n);
    MergedMetadata(mem, blocks, free, lo, hi, h);
    v := Metadata(Merged(blocks, h)[h]);
    AbsorbStep(mem, blocks, free, lo, hi, h, i, v);
    MergedWalk(blocks, lo, hi, h);
    SpacedOf(mem, blocks, free, lo, hi);
  }

  lemma SpacedOf(mem: WordMemory, blocks: Blocks, free: seq<Word>, lo: int, hi: int)
    requires Shaped(mem, blocks, free, {}, lo, hi)
    ensures Spaced(free)
  {
  }

  /** Coalescing the right neighbour and then taking it in: h has absorbed the whole run. */
  lemma AbsorbedByNeighbour(b0: Blocks, b1: Blocks, lo: int, hi: int, h: int)
    requires Tiling(b0, lo, hi) && h in b0 && !b0[h].free && End(b0, h) in b0 && b0[End(b0, h)].free && Absorbed(b0, b1, End(b0, h))
    ensures h in b1 && b1[h] == b0[h] && End(b1, h) == End(b0, h) && End(b0, h) in b1
    ensures Absorbed(b0, Merged(b1, h), h) && End(Merged(b1, h), h) == End(b1, End(b0, h))
  {
    hide Chained;
  }

  /** Writing within the payload of a block in use. */
  lemma PayloadWritten(mem: WordMemory, mem': WordMemory, blocks: Blocks, free: seq<Word>, t: Totals, lo: int, hi: int,
          d: int)
    requires Good(mem, blocks, free, t, lo, hi) && d in blocks && !blocks[d].free
    requires forall q :: q < d + METADATA || q >= End(blocks, d) ==> mem'(q) == mem(q)
    ensures Good(mem', blocks, free, t, lo, hi)
    ensures LiveKept(blocks, mem, blocks, mem', {d}) && OutsideKept(mem, mem', lo, hi)
  {
    hide Chained, Walk;
    forall i | 0 <= i < |free|
      ensures LinkedAt(mem', free, i)
    {
      assert LinkedAt(mem, free, i) && free[i] in blocks && free[i] != d;
    }
  }

  /** A free block apart from the run of free blocks that follows h. */
  ghost predicate Spare(blocks: Blocks, hi: int, h: int, f: int)
    requires h in blocks
  {
    f in blocks && blocks[f].free && !(End(blocks, h) <= f < RunEnd(blocks, End(blocks, h), hi))
  }

  ghost predicate HasSpare(blocks: Blocks, hi: int, h: int)
    requires h in blocks
  {
    exists f :: Spare(blocks, hi, h, f)
  }

  ghost predicate HasTwoSpares(blocks: Blocks, hi: int, h: int)
    requires h in blocks
  {
    exists f, g :: f != g && Spare(blocks, hi, h, f) && Spare(blocks, hi, h, g)
  }

  ghost predicate HasFree(blocks: Blocks) {
    exists f :: f in blocks && blocks[f].free
  }

  ghost predicate HasTwoFree(blocks: Blocks) {
    exists f, g :: f in blocks && g in blocks && f != g && blocks[f].free && blocks[g].free
  }

  /** No spare block is large enough. */
  ghost predicate NoSpareFits(blocks: Blocks, hi: int, h: int, needs: int)
    requires h in blocks
  {
    forall f :: Spare(blocks, hi, h, f) ==> blocks[f].size < needs
  }

  lemma ListEmpty(mem: WordMemory, blocks: Blocks, free: seq<Word>, t: Totals, lo: int, hi: int)
    requires Sound(mem, blocks, free, {}, t, lo, hi)
    ensures free == [] <==> !HasFree(blocks)
  {
    hide Tiling, Headers, Walk, Spaced;
    if free != [] {
      assert free[0] in blocks && blocks[free[0]].free;
    }
  }

  /** What is left once h has absorbed the run are the spare blocks. */
  lemma SpareAfterAbsorbing(b0: Blocks, b: Blocks, lo: int, hi: int, h: int, f: int)
    requires Tiling(b0, lo, hi) && h in b0 && !b0[h].free
    requires Absorbed(b0, b, h) && End(b, h) == RunEnd(b0, End(b0, h), hi)
    ensures Spare(b0, hi, h, f) <==> f in b && b[f].free
  {
    hide Chained, RunEnd;
  }

  lemma SparesAfterAbsorbing(m0: WordMemory, b0: Blocks, free0: seq<Word>, t0: Totals, b: Blocks, lo: int, hi: int,
          h: int)
    requires Good(m0, b0, free0, t0, lo, hi) && h in b0 && !b0[h].free
    requires Absorbed(b0, b, h) && End(b, h) == RunEnd(b0, End(b0, h), hi)
    ensures h in b && !b[h].free && b[h].size >= b0[h].size
    ensures HasSpare(b0, hi, h) <==> HasFree(b)
    ensures HasTwoSpares(b0, hi, h) <==> HasTwoFree(b)
  {
    forall f
      ensures Spare(b0, hi, h, f) <==> f in b && b[f].free
    {
      SpareAfterAbsorbing(b0, b, lo, hi, h, f);
    }
    hide Tiling, Spare, RunEnd, Headers, Linked, Listed, Spaced, Walk;
  }

  lemma FittingSpares(m0: WordMemory, b0: Blocks, free0: seq<Word>, t0: Totals, m: WordMemory, b: Blocks,
          free: seq<Word>, t: Totals, lo: int, hi: int, h: int, needs: int)
    requires Good(m0, b0, free0, t0, lo, hi) && h in b0 && !b0[h].free && Sound(m, b, free, {}, t, lo, hi)
    requires Absorbed(b0, b, h) && End(b, h) == RunEnd(b0, End(b0, h), hi)
    ensures NothingFits(b, free, needs) <==> NoSpareFits(b0, hi, h, needs)
  {
    hide Chained, RunEnd, Headers, Linked, Spaced, Walk;
    forall f
      ensures Spare(b0, hi, h, f) <==> f in b && b[f].free
    {
      SpareAfterAbsorbing(b0, b, lo, hi, h, f);
    }
    ListedMembers(b, free, {});
    if NoSpareFits(b0, hi, h, needs) {
      forall i | 0 <= i < |free|
        ensures SizeAt(b, free, i) < needs
      {
        assert free[i] in free && Spare(b0, hi, h, free[i]);
      }
    }
    if NothingFits(b, free, needs) {
      forall f | Spare(b0, hi, h, f)
        ensures b0[f].size < needs
      {
        var i :| 0 <= i < |free| && free[i] == f;
        assert SizeAt(b, free, i) < needs;
      }
    }
  }

  /** d is a spare block of least sufficient size. */
  ghost predicate BestSpare(blocks: Blocks, hi: int, h: int, needs: int, d: int)
    requires h in blocks
  {
    && Spare(blocks, hi, h, d) && blocks[d].size >= needs
    && forall f :: Spare(blocks, hi, h, f) && blocks[f].size >= needs ==> blocks[d].size <= blocks[f].size
  }

  lemma BestFitIsBestSpare(m0: WordMemory, b0: Blocks, free0: seq<Word>, t0: Totals, m: WordMemory, b: Blocks,
          free: seq<Word>, t: Totals, lo: int, hi: int, h: int, needs: int, d: int)
    requires Good(m0, b0, free0, t0, lo, hi) && h in b0 && !b0[h].free && Sound(m, b, free, {}, t, lo, hi)
    requires Absorbed(b0, b, h) && End(b, h) == RunEnd(b0, End(b0, h), hi) && FitsBest(b, free, needs, d)
    ensures BestSpare(b0, hi, h, needs, d)
  {
    hide Chained, RunEnd, Headers, Linked, Spaced, Walk;
    forall f
      ensures Spare(b0, hi, h, f) <==> f in b && b[f].free
    {
      SpareAfterAbsorbing(b0, b, lo, hi, h, f);
    }
    ListedMembers(b, free, {});
    var i: nat :| BestFit(b, free, needs, i) && free[i] == d;
    forall f | Spare(b0, hi, h, f) && b0[f].size >= needs
      ensures b0[d].size <= b0[f].size
    {
      var j :| 0 <= j < |free| && free[j] == f;
      assert SizeAt(b, free, j) >= needs;
    }
  }

  /** What absorbing leaves to allocate from. */
  lemma AfterAbsorbing(m0: WordMemory, b0: Blocks, free0: seq<Word>, t0: Totals, m: WordMemory, b: Blocks,
          free: seq<Word>, t: Totals, lo: int, hi: int, h: int, needs: int)
    requires Good(m0, b0, free0, t0, lo, hi) && h in b0 && !b0[h].free && Sound(m, b, free, {}, t, lo, hi)
    requires Absorbed(b0, b, h) && End(b, h) == RunEnd(b0, End(b0, h), hi)
    ensures h in b && !b[h].free && b[h].size >= b0[h].size
    ensures HasSpare(b0, hi, h) <==> HasFree(b)
    ensures HasTwoSpares(b0, hi, h) ==> HasTwoFree(b) && HasFree(b)
    ensures free == [] <==> !HasFree(b)
    ensures NothingFits(b, free, needs) <==> NoSpareFits(b0, hi, h, needs)
  {
    hide Sound, Absorbed, RunEnd, HasFree, HasTwoFree, HasSpare, HasTwoSpares, NoSpareFits, NothingFits, Linked;
    SparesAfterAbsorbing(m0, b0, free0, t0, b, lo, hi, h);
    FittingSpares(m0, b0, free0, t0, m, b, free, t, lo, hi, h, needs);
    TwoAreOne(b);
    ListEmpty(m, b, free, t, lo, hi);
  }

  /** After coalesce_right(right), seen from h, the block before it. */
  lemma NeighbourAbsorbs(m0: WordMemory, b0: Blocks, free0: seq<Word>, t: Totals, m1: WordMemory, b1: Blocks, lo: int,
          hi: int, h: int)
    requires Good(m0, b0, free0, t, lo, hi) && h in b0 && !b0[h].free && End(b0, h) in b0 && b0[End(b0, h)].free
    requires Absorbed(b0, b1, End(b0, h)) && LiveKept(b0, m0, b1, m1, {})
    ensures h in b1 && b1[h] == b0[h] && End(b1, h) == End(b0, h) && End(b0, h) in b1
    ensures Absorbed(b0, Merged(b1, h), h) && End(Merged(b1, h), h) == End(b1, End(b0, h))
    ensures Keeps(m0, m1, h + METADATA, b0[h].size) && h in Merged(b1, h) && !Merged(b1, h)[h].free
  {
    hide Absorbed, Tiling, Headers, Linked, Listed, Spaced, Walk;
    AbsorbedByNeighbour(b0, b1, lo, hi, h);
  }

  lemma AbsorbedTogether(b0: Blocks, m0: WordMemory, b1: Blocks, m1: WordMemory, b2: Blocks, m2: WordMemory, h: int)
    requires h in b0 && h in b1 && b1[h] == b0[h]
    requires LiveKept(b0, m0, b1, m1, {}) && LiveKept(b1, m1, b2, m2, {h})
    requires Keeps(m0, m1, h + METADATA, b0[h].size) && Keeps(m1, m2, h + METADATA, b1[h].size)
    ensures LiveKept(b0, m0, b2, m2, {h}) && Keeps(m0, m2, h + METADATA, b0[h].size)
  {
    LiveKeptTransitive(b0, m0, b1, m1, b2, m2, {}, {h}, {h});
  }

  lemma NothingToAbsorb(mem: WordMemory, blocks: Blocks, free: seq<Word>, t: Totals, lo: int, hi: int, h: int)
    requires Sound(mem, blocks, free, {}, t, lo, hi) && h in blocks && (End(blocks, h) in blocks ==> !blocks[End(blocks, h)].free)
    ensures Absorbed(blocks, blocks, h) && End(blocks, h) == RunEnd(blocks, End(blocks, h), hi)
    ensures LiveKept(blocks, mem, blocks, mem, {h}) && OutsideKept(mem, mem, lo, hi)
    ensures Keeps(mem, mem, h + METADATA, blocks[h].size)
  {
    hide Tiling, Headers, Listed, Spaced, Walk;
    AbsorbedRefl(blocks, lo, hi, h);
  }

  lemma BlockRead(mem: WordMemory, blocks: Blocks, free: seq<Word>, t: Totals, lo: int, hi: int, h: int)
    requires Sound(mem, blocks, free, {}, t, lo, hi) && h in blocks
    ensures SizeOf(mem(h)) == blocks[h].size && blocks[h].size % 2 == 0 && blocks[h].size >= MINIMUM_PAYLOAD
    ensures 0 < lo <= h && End(blocks, h) <= hi <= TWO_TO_THE_32
  {
    HeaderRead(mem, blocks, free, {}, lo, hi, h);
  }

  /** memcpy(dst, src, n), on the words that lie wholly within. */
  function Copied(mem: WordMemory, dst: int, src: int, n: int): WordMemory {
    q => if dst <= q && q + 4 <= dst + n then mem(q - dst + src) else mem(q)
  }

  /** Every word of the n bytes at src is now at dst. */
  ghost predicate Moved(mem: WordMemory, mem': WordMemory, src: int, dst: int, n: int) {
    forall q :: src <= q && q + 4 <= src + n ==> mem'(q - src + dst) == mem(q)
  }

  lemma KeptBlock(b0: Blocks, m0: WordMemory, b1: Blocks, m1: WordMemory, except: set<int>, h: int)
    requires LiveKept(b0, m0, b1, m1, except) && h in b0 && !b0[h].free && h !in except
    ensures h in b1 && b1[h] == b0[h] && Keeps(m0, m1, h + METADATA, b0[h].size)
  {
  }

  lemma TwoAreOne(blocks: Blocks)
    ensures HasTwoFree(blocks) ==> HasFree(blocks)
  {
  }

  /** If two blocks are free, one still is when d has been allocated. */
  lemma AnotherFree(blocks: Blocks, blocks': Blocks, d: int, needs: int)
    requires d in blocks && blocks' == Trimmed(WithStatus(blocks, d, false), d, needs)
    ensures HasTwoFree(blocks) ==> HasFree(blocks')
  {
    if f, g :| f in blocks && g in blocks && f != g && blocks[f].free && blocks[g].free {
      var x := if f == d then g else f;
      assert x in blocks' && blocks'[x].free;
    }
  }

  lemma MovedWord(m0: WordMemory, m1: WordMemory, m2: WordMemory, m3: WordMemory, src: int, dst: int, n: int, q: int)
    requires Keeps(m0, m1, src, n) && m2 == Copied(m1, dst, src, n) && Keeps(m2, m3, dst, n)
    requires src <= q && q + 4 <= src + n
    ensures m3(q - src + dst) == m0(q)
  {
    hide Keeps, Copied;
    KeepsAt(m0, m1, src, n, q);
    KeepsAt(m2, m3, dst, n, q - src + dst);
    CopiedAt(m1, dst, src, n, q - src + dst);
  }

  lemma KeepsAt(m: WordMemory, m': WordMemory, p: int, n: int, q: int)
    requires Keeps(m, m', p, n) && p <= q < p + n
    ensures m'(q) == m(q)
  {
  }

  lemma CopiedAt(m: WordMemory, dst: int, src: int, n: int, q: int)
    ensures Copied(m, dst, src, n)(q) == if dst <= q && q + 4 <= dst + n then m(q - dst + src) else m(q)
  {
  }

  lemma MovedThrough(m0: WordMemory, m1: WordMemory, m2: WordMemory, m3: WordMemory, src: int, dst: int, n: int)
    requires Keeps(m0, m1, src, n) && m2 == Copied(m1, dst, src, n) && Keeps(m2, m3, dst, n)
    ensures Moved(m0, m3, src, dst, n)
  {
    hide Keeps, Copied;
    forall q | src <= q && q + 4 <= src + n
      ensures m3(q - src + dst) == m0(q)
    {
      MovedWord(m0, m1, m2, m3, src, dst, n, q);
    }
  }

  lemma KeepsTransitive(m0: WordMemory, m1: WordMemory, m2: WordMemory, p: int, n: int, n': int)
    requires Keeps(m0, m1, p, n) && Keeps(m1, m2, p, n') && n <= n'
    ensures Keeps(m0, m2, p, n)
  {
  }

  /** The data after the allocation of d, the copy from h to d, and the freeing of h. */
  lemma MovedData(b0: Blocks, m0: WordMemory, b1: Blocks, m1: WordMemory, m2: WordMemory, b3: Blocks, m3: WordMemory,
          h: int, d: int, src: int, dst: int, n: int)
    requires h in b0 && !b0[h].free && src == h + METADATA && n == b0[h].size
    requires LiveKept(b0, m0, b1, m1, {}) && d in b1 && !b1[d].free && d != h && dst == d + METADATA && n <= b1[d].size
    requires d in b0 && b0[d].free
    requires m2 == Copied(m1, dst, src, n) && LiveKept(b1, m1, b1, m2, {d}) && LiveKept(b1, m2, b3, m3, {h})
    ensures Keeps(m0, m2, src, n)
    ensures Moved(m0, m3, src, dst, n) && d in b3 && b3[d] == b1[d] && LiveKept(b0, m0, b3, m3, {h})
  {
    hide LiveKept, Keeps, Copied, Moved;
    KeptBlock(b0, m0, b1, m1, {}, h);
    KeptBlock(b1, m1, b1, m2, {d}, h);
    KeepsTransitive(m0, m1, m2, src, n, n);
    KeptBlock(b1, m2, b3, m3, {h}, d);
    KeepsRefl(m2, dst, n);
    KeepsTransitive(m2, m2, m3, dst, n, b1[d].size);
    MovedThrough(m0, m1, m2, m3, src, dst, n);
    MovedLive(b0, m0, b1, m1, m2, b3, m3, h, d);
  }

  lemma KeepsRefl(m: WordMemory, p: int, n: int)
    ensures Keeps(m, m, p, n)
  {
  }

  lemma MovedLive(b0: Blocks, m0: WordMemory, b1: Blocks, m1: WordMemory, m2: WordMemory, b3: Blocks, m3: WordMemory,
          h: int, d: int)
    requires LiveKept(b0, m0, b1, m1, {}) && LiveKept(b1, m1, b1, m2, {d}) && LiveKept(b1, m2, b3, m3, {h})
    requires d in b0 && b0[d].free
    ensures LiveKept(b0, m0, b3, m3, {h})
  {
    hide Keeps;
    forall a | a in b0 && !b0[a].free && a != h
      ensures a in b3 && b3[a] == b0[a] && Keeps(m0, m3, a + METADATA, b0[a].size)
    {
      KeptBlock(b0, m0, b1, m1, {}, a);
      KeptBlock(b1, m1, b1, m2, {d}, a);
      KeptBlock(b1, m2, b3, m3, {h}, a);
      KeepsTransitive(m0, m1, m2, a + METADATA, b0[a].size, b0[a].size);
      KeepsTransitive(m0, m2, m3, a + METADATA, b0[a].size, b0[a].size);
    }
  }

  /** The prefix that h held before absorbing moves along. */
  lemma MovedPrefix(m0: WordMemory, m1: WordMemory, m2: WordMemory, src: int, dst: int, n: int, n': int)
    requires Keeps(m0, m1, src, n) && Moved(m1, m2, src, dst, n') && n <= n'
    ensures Moved(m0, m2, src, dst, n)
  {
    forall q | src <= q && q + 4 <= src + n
      ensures m2(q - src + dst) == m0(q)
    {
      assert m1(q) == m0(q);
    }
  }

  /** After absorbing and trimming: the old payload, and the other blocks. */
  lemma GrownKeeps(b0: Blocks, m0: WordMemory, b1: Blocks, m1: WordMemory, b2: Blocks, m2: WordMemory, h: int,
          needs: int)
    requires h in b0 && LiveKept(b0, m0, b1, m1, {h}) && LiveKept(b1, m1, b2, m2, {h})
    requires Keeps(m0, m1, h + METADATA, b0[h].size) && Keeps(m1, m2, h + METADATA, needs) && b0[h].size <= needs
    ensures LiveKept(b0, m0, b2, m2, {h}) && Keeps(m0, m2, h + METADATA, b0[h].size)
  {
    LiveKeptTransitive(b0, m0, b1, m1, b2, m2, {h}, {h}, {h});
  }

  lemma TrimmedSize(blocks: Blocks, h: int, needs: int)
    requires h in blocks && !blocks[h].free && MINIMUM_PAYLOAD <= needs <= blocks[h].size
    ensures var b := Trimmed(blocks, h, needs);
      h in b && !b[h].free && b[h].size == if Trims(blocks, h, needs) then needs else blocks[h].size
  {
  }

  lemma UsedUnlistedIn(mem: WordMemory, blocks: Blocks, free: seq<Word>, t: Totals, lo: int, hi: int, h: int)
    requires Sound(mem, blocks, free, {}, t, lo, hi) && h in blocks && !blocks[h].free
    ensures h !in free
  {
    ListedMembers(blocks, free, {});
    hide Tiling, Headers, Walk, Spaced;
  }

  // ---- validate_heap ----

  lemma HeapStart(mem: WordMemory, blocks: Blocks, free: seq<Word>, t: Totals, lo: int, hi: int)
    requires Sound(mem, blocks, free, {}, t, lo, hi)
    ensures lo in blocks
  {
  }

  /** The free blocks at or after a. */
  ghost function FreeFrom(blocks: Blocks, a: int): set<int> {
    set x | x in blocks && x >= a && blocks[x].free
  }

  lemma {:induction false} WalkCountsFree(blocks: Blocks, lo: int, hi: int, a: int)
    requires Tiling(blocks, lo, hi) && (a in blocks || a == hi)
    ensures Walk(blocks, a, hi).freeBlocks == |FreeFrom(blocks, a)|
    decreases hi - a
  {
    if a in blocks {
      assert Follows(blocks, hi, a);
      WalkCountsFree(blocks, lo, hi, End(blocks, a));
      var rest := FreeFrom(blocks, End(blocks, a));
      assert a !in rest;
      assert FreeFrom(blocks, a) == if blocks[a].free then {a} + rest else rest;
    } else {
      assert FreeFrom(blocks, a) == {};
    }
  }

  function Members(free: seq<Word>): set<int> {
    set x: int | x in free
  }

  lemma {:induction false} SpacedCardinality(free: seq<Word>)
    requires Spaced(free)
    ensures |Members(free)| == |free|
  {
    if free == [] {
      assert Members(free) == {};
    } else {
      var init, last := free[..|free| - 1], free[|free| - 1];
      SpacedCardinality(init);
      assert last !in init;
      assert free == init + [last];
      assert Members(free) == Members(init) + {last as int};
    }
  }

  /** The counters of a well-formed heap: header and payload bytes make it up, and the list is as long as it should be. */
  lemma Accounts(mem: WordMemory, blocks: Blocks, free: seq<Word>, t: Totals, lo: int, hi: int)
    requires Sound(mem, blocks, free, {}, t, lo, hi)
    ensures METADATA * (t.usedBlocks + t.freeBlocks) + t.usedBytes + t.freeBytes == hi - lo
    ensures t.usedBlocks >= 0 && t.freeBlocks >= 0 && t.usedBytes >= 0 && t.freeBytes >= 0
    ensures (t.usedBlocks == 0 ==> t.usedBytes == 0) && (t.freeBlocks == 0 ==> t.freeBytes == 0)
    ensures t.freeBlocks == |free|
  {
    WalkTotal(blocks, lo, hi, lo);
    WalkCountsFree(blocks, lo, hi, lo);
    SpacedCardinality(free);
    ListedMembers(blocks, free, {});
    hide Chained, Apart, Headers, Walk;
    assert FreeFrom(blocks, lo) == Members(free);
  }

  // ---- equiv_malloc_init ----

  /** set_size, set_status and the two NULL links. */
  function InitStores(mem: WordMemory, h: Word, n: Word): WordMemory {
    var m1 := Put(mem, h, SizeOf(n) + mem(h) % 2);
    var m2 := Put(m1, h, SizeOf(m1(h)) + 1);
    Put(Put(m2, h + PREVIOUS, NULL), h + NEXT, NULL)
  }

  lemma InitFrame(mem: WordMemory, h: Word, n: Word, hi: int)
    requires h + NEXT < hi
    ensures var m := InitStores(mem, h, n);
      m(h) == SizeOf(n) + 1 && m(h + PREVIOUS) == NULL && m(h + NEXT) == NULL && OutsideKept(mem, m, h, hi)
  {
    assert SizeOf(SizeOf(n) + mem(h) % 2) == SizeOf(n);
  }

  lemma EvenSize(n: Word)
    ensures SizeOf(n) == n <==> n % 2 == 0
    ensures SizeOf(n) <= n <= SizeOf(n) + 1 && SizeOf(n) % 2 == 0
  {
  }

  predicate Even(n: int) {
    n % 2 == 0
  }

  /** The heap after its initialisation is well formed exactly if its size is even. */
  lemma InitShaped(mem: WordMemory, h: Word, heapSize: Word)
    requires 0 < h && h % 4 == 0 && 28 <= heapSize && h + heapSize <= TWO_TO_THE_32
    requires mem(h) == SizeOf(heapSize - METADATA) + 1 && mem(h + PREVIOUS) == NULL && mem(h + NEXT) == NULL
    ensures var blocks := Whole(h, SizeOf(heapSize - METADATA));
      && Linked(mem, [h])
      && (Shaped(mem, blocks, [h], {}, h, h + heapSize) <==> Even(heapSize))
      && (Even(heapSize) ==> Walk(blocks, h, h + heapSize) == Totals(0, 1, 0, heapSize - METADATA))
  {
    EvenSize(heapSize - METADATA);
    hide SizeOf;
    OneBlock(mem, h, SizeOf(heapSize - METADATA), h + heapSize);
    hide Tiling, Aligned, Headers, Listed, Spaced, Linked, Walk;
  }
}
