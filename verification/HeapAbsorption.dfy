/** equiv-malloc.c on values: what stands where free blocks were when another block has absorbed them. */
module HeapAbsorption {
  import opened Sequences
  import opened Words
  import opened HeapLayout
  import opened HeapSteps

  // ---- the list while a run of free blocks is taken out ----

  /** The list without its members strictly between lo and hi. */
  ghost function Dropped(free: seq<Word>, lo: int, hi: int): seq<Word> {
    if free == [] then []
    else (if lo < free[0] < hi then [] else [free[0]]) + Dropped(free[1..], lo, hi)
  }

  lemma {:induction false} DroppedMembers(free: seq<Word>, lo: int, hi: int)
    ensures forall x :: x in Dropped(free, lo, hi) <==> x in free && !(lo < x < hi)
  {
    if free != [] {
      DroppedMembers(free[1..], lo, hi);
      assert free == [free[0]] + free[1..];
    }
  }

  lemma {:induction false} DroppedNothing(free: seq<Word>, lo: int, hi: int, hi': int)
    requires hi <= hi' && forall x :: x in free ==> !(hi <= x < hi')
    ensures Dropped(free, lo, hi) == Dropped(free, lo, hi')
  {
    if free != [] {
      assert free[0] in free && forall x :: x in free[1..] ==> x in free;
      DroppedNothing(free[1..], lo, hi, hi');
    }
  }

  lemma OnlyAtHead(x: Word, rest: seq<Word>, i: nat)
    requires x !in rest && i <= |rest|
    ensures ([x] + rest)[i] == x <==> i == 0
  {
    if i > 0 {
      assert rest[i - 1] in rest;
    }
  }

  lemma WithoutShifts(x: Word, rest: seq<Word>, i: nat)
    requires 0 < i <= |rest|
    ensures Without([x] + rest, i) == [x] + Without(rest, i - 1)
  {
  }

  lemma DroppedHead(free: seq<Word>, lo: int, hi: int, hi': int, i: nat)
    requires lo < hi < hi' && (forall x :: x in free ==> !(hi < x < hi'))
    requires free != [] && free[0] == hi && free[0] !in free[1..] && i < |Dropped(free, lo, hi)| && Dropped(free, lo, hi)[i] == hi
    ensures Without(Dropped(free, lo, hi), i) == Dropped(free, lo, hi')
  {
    var rest := free[1..];
    var list := Dropped(rest, lo, hi);
    assert forall x :: x in rest ==> x in free;
    DroppedMembers(rest, lo, hi);
    OnlyAtHead(free[0], list, i);
    DroppedNothing(rest, lo, hi, hi');
  }

  lemma DroppedUnfold(free: seq<Word>, lo: int, hi: int)
    requires Dropped(free, lo, hi) != []
    ensures free != []
    ensures Dropped(free, lo, hi) ==
      if lo < free[0] < hi then Dropped(free[1..], lo, hi) else [free[0]] + Dropped(free[1..], lo, hi)
    ensures free[0] in free && forall x :: x in free[1..] ==> x in free
  {
  }

  lemma DroppedSkips(free: seq<Word>, lo: int, hi: int)
    requires free != [] && lo < free[0] < hi
    ensures Dropped(free, lo, hi) == Dropped(free[1..], lo, hi)
  {
  }

  lemma DroppedKeeps(free: seq<Word>, lo: int, hi: int, hi': int, i: nat)
    requires lo < hi < hi' && free != [] && free[0] != hi && !(lo < free[0] < hi) && !(hi < free[0] < hi')
    requires i < |Dropped(free, lo, hi)| && Dropped(free, lo, hi)[i] == hi
    requires i > 0 ==> Without(Dropped(free[1..], lo, hi), i - 1) == Dropped(free[1..], lo, hi')
    ensures i > 0 && Without(Dropped(free, lo, hi), i) == Dropped(free, lo, hi')
  {
    hide Without;
    assert Dropped(free, lo, hi) == [free[0]] + Dropped(free[1..], lo, hi);
    WithoutShifts(free[0], Dropped(free[1..], lo, hi), i);
  }

  /** Taking out the member at hi extends what is dropped to the next block. */
  lemma {:induction false} DroppedWithout(free: seq<Word>, lo: int, hi: int, hi': int, i: nat)
    requires lo < hi < hi' && (forall x :: x in free ==> !(hi < x < hi'))
    requires Distinct(free) && i < |Dropped(free, lo, hi)| && Dropped(free, lo, hi)[i] == hi
    ensures Without(Dropped(free, lo, hi), i) == Dropped(free, lo, hi')
  {
    hide Dropped, Without;
    DroppedUnfold(free, lo, hi);
    if free[0] == hi {
      DroppedHead(free, lo, hi, hi', i);
    } else if lo < free[0] < hi {
      DroppedWithout(free[1..], lo, hi, hi', i);
      DroppedSkips(free, lo, hi');
    } else {
      DroppedWithout(free[1..], lo, hi, hi', i - 1);
      DroppedKeeps(free, lo, hi, hi', i);
    }
  }

  /** The neighbours of a in a list, NULL where there is none. */
  ghost predicate At(free: seq<Word>, a: int, i: nat) {
    i < |free| && free[i] == a
  }

  ghost function PrevIn(free: seq<Word>, a: int): Word {
    if i: nat :| At(free, a, i) then PrevOf(free, i) else NULL
  }

  ghost function NextIn(free: seq<Word>, a: int): Word {
    if i: nat :| At(free, a, i) then NextOf(free, i) else NULL
  }

  lemma NeighboursAt(free: seq<Word>, i: nat)
    requires Distinct(free) && i < |free|
    ensures PrevIn(free, free[i]) == PrevOf(free, i) && NextIn(free, free[i]) == NextOf(free, i)
  {
    assert At(free, free[i], i);
  }

  lemma SpacedDistinct(free: seq<Word>)
    requires Spaced(free)
    ensures Distinct(free)
  {
  }

  lemma {:induction false} DroppedNone(free: seq<Word>, lo: int, hi: int)
    requires forall x :: x in free ==> !(lo < x < hi)
    ensures Dropped(free, lo, hi) == free
  {
    if free != [] {
      assert free[0] in free && forall x :: x in free[1..] ==> x in free;
      DroppedNone(free[1..], lo, hi);
    }
  }

  // ---- what the absorption leaves ----

  /** Nothing but h's header and links of blocks that were free has changed. */
  ghost predicate OnlyHeaderAndLinks(m0: WordMemory, free0: seq<Word>, m: WordMemory, h: int) {
    forall q :: q != h && (forall i :: 0 <= i < |free0| ==> q != free0[i] + PREVIOUS && q != free0[i] + NEXT) ==> m(q) == m0(q)
  }

  /** Each block absorbed into h keeps the links that it had when it was taken out, the ones before it being gone. */
  ghost predicate LinksAsTakenOut(b0: Blocks, free0: seq<Word>, m: WordMemory, h: int, e: int) {
    forall r :: r in b0 && b0[r].free && h < r < e ==>
      m(r + PREVIOUS) == PrevIn(Dropped(free0, h, r), r) && m(r + NEXT) == NextIn(Dropped(free0, h, r), r)
  }

  /** h, which was a block of b0, has absorbed what lies before e. */
  ghost predicate Leaves(m0: WordMemory, b0: Blocks, free0: seq<Word>, m: WordMemory, free: seq<Word>, h: int, e: int) {
    free == Dropped(free0, h, e) && OnlyHeaderAndLinks(m0, free0, m, h) && LinksAsTakenOut(b0, free0, m, h, e)
  }

  lemma LeavesBegin(m0: WordMemory, b0: Blocks, free0: seq<Word>, t: Totals, lo: int, hi: int, h: int)
    requires Sound(m0, b0, free0, {}, t, lo, hi) && h in b0
    ensures Leaves(m0, b0, free0, m0, free0, h, End(b0, h))
  {
    hide Chained, Headers, Walk, Spaced;
    ListedMembers(b0, free0, {});
    DroppedNone(free0, h, End(b0, h));
  }

  lemma StoresAt(mem: WordMemory, free: seq<Word>, i: nat, h: int, v: Word, q: int)
    requires Linked(Put(mem, h, v), free) && Spaced(free) && i < |free|
    ensures CoalesceStores(mem, h, v, free[i])(q) ==
      if i > 0 && q == free[i - 1] + NEXT then NextOf(free, i)
      else if i + 1 < |free| && q == free[i + 1] + PREVIOUS then PrevOf(free, i)
      else if q == h then v else mem(q)
  {
    UnlinkStores(Put(mem, h, v), free, i, q);
    hide Unlink, Linked, Spaced;
  }

  lemma StepKeepsOthers(m0: WordMemory, free0: seq<Word>, mem: WordMemory, free: seq<Word>, i: nat, h: int, v: Word)
    requires OnlyHeaderAndLinks(m0, free0, mem, h) && (forall x :: x in free ==> x in free0)
    requires Linked(Put(mem, h, v), free) && Spaced(free) && i < |free|
    ensures OnlyHeaderAndLinks(m0, free0, CoalesceStores(mem, h, v, free[i]), h)
  {
    hide CoalesceStores, Linked, Spaced;
    forall q | q != h && (forall i :: 0 <= i < |free0| ==> q != free0[i] + PREVIOUS && q != free0[i] + NEXT)
      ensures CoalesceStores(mem, h, v, free[i])(q) == m0(q)
    {
      StoresAt(mem, free, i, h, v, q);
      NotALink(free0, free, q);
    }
  }

  lemma NotALink(free0: seq<Word>, free: seq<Word>, q: int)
    requires forall i :: 0 <= i < |free0| ==> q != free0[i] + PREVIOUS && q != free0[i] + NEXT
    requires forall x :: x in free ==> x in free0
    ensures forall i :: 0 <= i < |free| ==> q != free[i] + PREVIOUS && q != free[i] + NEXT
  {
    forall i | 0 <= i < |free|
      ensures q != free[i] + PREVIOUS && q != free[i] + NEXT
    {
      assert free[i] in free;
    }
  }

  /** Links of different free blocks are different words. */
  lemma LinksApart(free0: seq<Word>, x: Word, y: Word)
    requires Spaced(free0) && x in free0 && y in free0 && x != y
    ensures x + PREVIOUS != y + PREVIOUS && x + PREVIOUS != y + NEXT && x + NEXT != y + NEXT && x + NEXT != y + PREVIOUS
  {
    var i :| 0 <= i < |free0| && free0[i] == x;
    var j :| 0 <= j < |free0| && free0[j] == y;
  }

  /** The links of a block that is not listed any more, or that is just being taken out, stay. */
  lemma StepKeepsLinks(free0: seq<Word>, mem: WordMemory, free: seq<Word>, i: nat, h: int, v: Word, r: Word)
    requires Spaced(free0) && (forall x :: x in free ==> x in free0) && r in free0 && h < r
    requires Linked(Put(mem, h, v), free) && Spaced(free) && i < |free| && (r in free ==> r == free[i])
    ensures var m := CoalesceStores(mem, h, v, free[i]); m(r + PREVIOUS) == mem(r + PREVIOUS) && m(r + NEXT) == mem(r + NEXT)
  {
    hide CoalesceStores, Linked;
    StoresAt(mem, free, i, h, v, r + PREVIOUS);
    StoresAt(mem, free, i, h, v, r + NEXT);
    SpacedDistinct(free);
    if i > 0 {
      assert free[i - 1] in free;
      LinksApart(free0, free[i - 1], r);
    }
    if i + 1 < |free| {
      assert free[i + 1] in free;
      LinksApart(free0, free[i + 1], r);
    }
  }

  /** e, the block after h, is a block of b0 and no other begins in it. */
  lemma NothingWithin(b0: Blocks, blocks: Blocks, free0: seq<Word>, lo: int, hi: int, h: int, e: int)
    requires Tiling(b0, lo, hi) && Listed(b0, free0, {}) && Absorbed(b0, blocks, h) && e == End(blocks, h) && e in blocks
    ensures h < e < End(blocks, e) && e in b0 && End(b0, e) == End(blocks, e) && b0[e].free == blocks[e].free
    ensures forall x :: x in b0 ==> !(e < x < End(blocks, e))
    ensures forall x :: x in free0 ==> !(e < x < End(blocks, e))
  {
    hide Chained, Listed;
    ListedMembers(b0, free0, {});
  }

  lemma LinksOfTaken(free0: seq<Word>, mem: WordMemory, free: seq<Word>, i: nat, h: int, v: Word, e: Word)
    requires Spaced(free0) && free == Dropped(free0, h, e) && e in free0 && h < e
    requires Linked(mem, free) && Linked(Put(mem, h, v), free) && Spaced(free) && i < |free| && free[i] == e
    ensures var m := CoalesceStores(mem, h, v, e);
      m(e + PREVIOUS) == PrevIn(Dropped(free0, h, e), e) && m(e + NEXT) == NextIn(Dropped(free0, h, e), e)
  {
    hide CoalesceStores, Linked, PrevIn, NextIn, Spaced, Dropped;
    DroppedMembers(free0, h, e);
    StepKeepsLinks(free0, mem, free, i, h, v, e);
    SpacedDistinct(free);
    NeighboursAt(free, i);
    LinkedEach(mem, free, i);
  }

  lemma LinksOfEarlier(free0: seq<Word>, mem: WordMemory, free: seq<Word>, i: nat, h: int, v: Word, e: Word, r: Word)
    requires Spaced(free0) && free == Dropped(free0, h, e) && r in free0 && h < r < e
    requires Linked(Put(mem, h, v), free) && Spaced(free) && i < |free| && free[i] == e
    ensures var m := CoalesceStores(mem, h, v, e); m(r + PREVIOUS) == mem(r + PREVIOUS) && m(r + NEXT) == mem(r + NEXT)
  {
    hide CoalesceStores, Linked, Spaced, Dropped;
    DroppedMembers(free0, h, e);
    StepKeepsLinks(free0, mem, free, i, h, v, r);
  }

  lemma LinksStep(b0: Blocks, free0: seq<Word>, mem: WordMemory, free: seq<Word>, i: nat, h: int, v: Word, e: Word,
          e': int)
    requires Spaced(free0) && Listed(b0, free0, {}) && free == Dropped(free0, h, e) && h < e && e in b0 && b0[e].free
    requires Linked(mem, free) && Linked(Put(mem, h, v), free) && Spaced(free) && i < |free| && free[i] == e
    requires LinksAsTakenOut(b0, free0, mem, h, e) && forall x :: x in b0 ==> !(e < x < e')
    ensures LinksAsTakenOut(b0, free0, CoalesceStores(mem, h, v, e), h, e')
  {
    hide CoalesceStores, Linked, PrevIn, NextIn, Spaced, Dropped, Listed;
    ListedMembers(b0, free0, {});
    LinksOfTaken(free0, mem, free, i, h, v, e);
    forall r: Word | r in b0 && b0[r].free && h < r < e
      ensures var m := CoalesceStores(mem, h, v, e); m(r + PREVIOUS) == mem(r + PREVIOUS) && m(r + NEXT) == mem(r + NEXT)
    {
      LinksOfEarlier(free0, mem, free, i, h, v, e, r);
    }
    var m := CoalesceStores(mem, h, v, e);
    forall r | r in b0 && b0[r].free && h < r < e'
      ensures m(r + PREVIOUS) == PrevIn(Dropped(free0, h, r), r) && m(r + NEXT) == NextIn(Dropped(free0, h, r), r)
    {
      assert r in free0;
    }
  }

  /** One more block, the one at e, is taken out and absorbed. */
  lemma LeavesStep(m0: WordMemory, b0: Blocks, free0: seq<Word>, t0: Totals, mem: WordMemory, blocks: Blocks,
          free: seq<Word>, t: Totals, lo: int, hi: int, h: int, e: Word, i: nat, v: Word)
    requires Good(m0, b0, free0, t0, lo, hi) && Good(mem, blocks, free, t, lo, hi) && Absorbed(b0, blocks, h)
    requires h in blocks && e == End(blocks, h) && e in blocks && blocks[e].free && i < |free| && free[i] == e
    requires Leaves(m0, b0, free0, mem, free, h, e)
    ensures Leaves(m0, b0, free0, CoalesceStores(mem, h, v, e), Without(free, i), h, End(blocks, e))
  {
    hide CoalesceStores, Linked, Headers, Walk, Chained, PrevIn, NextIn, Spaced, Tiling, Aligned, Listed, Absorbed,
      OnlyHeaderAndLinks, LinksAsTakenOut, Dropped, Without;
    StoreHeader(mem, blocks, free, lo, hi, h, v);
    SpacedDistinct(free0);
    NothingWithin(b0, blocks, free0, lo, hi, h, e);
    DroppedMembers(free0, h, e);
    DroppedWithout(free0, h, e, End(blocks, e), i);
    StepKeepsOthers(m0, free0, mem, free, i, h, v);
    LinksStep(b0, free0, mem, free, i, h, v, e, End(blocks, e));
  }

  /** The round of coalesce_right that takes in the block at e. */
  lemma CoalescingRound(m0: WordMemory, b0: Blocks, free0: seq<Word>, t0: Totals, mem: WordMemory, blocks: Blocks,
          free: seq<Word>, t: Totals, lo: int, hi: int, h: int, e: Word, i: nat, v: Word)
    requires Good(m0, b0, free0, t0, lo, hi) && Good(mem, blocks, free, t, lo, hi)
    requires Coalescing(b0, m0, blocks, mem, lo, hi, h)
    requires h in blocks && e == End(blocks, h) && e in blocks && blocks[e].free && i < |free| && free[i] == e
    requires Leaves(m0, b0, free0, mem, free, h, e)
    requires var mem' := CoalesceStores(mem, h, v, e);
      LiveKept(blocks, mem, Merged(blocks, h), mem', {}) && OutsideKept(mem, mem', lo, hi)
    ensures var mem' := CoalesceStores(mem, h, v, e); var blocks' := Merged(blocks, h);
      && Coalescing(b0, m0, blocks', mem', lo, hi, h)
      && |blocks'| < |blocks| && h in blocks' && blocks'[h].free && End(blocks', h) == End(blocks, e)
      && Leaves(m0, b0, free0, mem', Without(free, i), h, End(blocks', h))
  {
    hide Absorbed, Sound, Linked, Leaves, CoalesceStores, Without, LiveKept, OutsideKept, RunEnd, Merged;
    LeavesStep(m0, b0, free0, t0, mem, blocks, free, t, lo, hi, h, e, i, v);
    CoalescingStep(b0, m0, mem, blocks, free, t, lo, hi, h, CoalesceStores(mem, h, v, e));
  }

  // ---- a run that is all there is on the list ----

  /** All that comes before r in the list lies between r0 and r. */
  ghost predicate LeadsFrom(free: seq<Word>, r0: int, r: int) {
    forall i, j :: 0 <= j < i < |free| && free[i] == r ==> r0 < free[j] < r
  }

  /** All that comes after it does. */
  ghost predicate TrailsFrom(free: seq<Word>, r0: int, r: int) {
    forall i, j :: 0 <= i < j < |free| && free[i] == r ==> r0 < free[j] < r
  }

  /** The word at q when the run of free blocks that begins at r0 has been absorbed and nothing else is on the list. */
  ghost function WordLeft(m0: WordMemory, b0: Blocks, free0: seq<Word>, r0: int, q: int): Word {
    if q == r0 + PREVIOUS || q == r0 + NEXT then NULL
    else if q - PREVIOUS in b0 && b0[q - PREVIOUS].free then PrevIn(Dropped(free0, r0, q - PREVIOUS), q - PREVIOUS)
    else if q - NEXT in b0 && b0[q - NEXT].free then NextIn(Dropped(free0, r0, q - NEXT), q - NEXT)
    else m0(q)
  }

  /** Whether that word is NULL: it is a link of the first block of the run, the link back of a block that nothing but
      blocks before it in the run precede in the list, the link onwards of one that nothing else follows, or a word
      that was NULL all along. */
  ghost predicate Blank(m0: WordMemory, b0: Blocks, free0: seq<Word>, r0: int, q: int) {
    if q == r0 + PREVIOUS || q == r0 + NEXT then true
    else if q in b0 then false
    else if q - PREVIOUS in b0 && b0[q - PREVIOUS].free then LeadsFrom(free0, r0, q - PREVIOUS)
    else if q - NEXT in b0 && b0[q - NEXT].free then TrailsFrom(free0, r0, q - NEXT)
    else m0(q) == NULL
  }

  lemma {:induction false} DroppedConcat(a: seq<Word>, b: seq<Word>, lo: int, hi: int)
    ensures Dropped(a + b, lo, hi) == Dropped(a, lo, hi) + Dropped(b, lo, hi)
  {
    if a == [] {
      assert a + b == b;
    } else {
      var list, head := a + b, if lo < a[0] < hi then [] else [a[0]];
      assert list[0] == a[0] && list[1..] == a[1..] + b;
      DroppedConcat(a[1..], b, lo, hi);
      assert head + (Dropped(a[1..], lo, hi) + Dropped(b, lo, hi)) == head + Dropped(a[1..], lo, hi) + Dropped(b, lo, hi);
    }
  }

  lemma {:induction false} DroppedDistinct(free: seq<Word>, lo: int, hi: int)
    requires Distinct(free)
    ensures Distinct(Dropped(free, lo, hi))
  {
    if free != [] {
      DroppedDistinct(free[1..], lo, hi);
      DroppedMembers(free[1..], lo, hi);
      assert free[0] !in free[1..];
    }
  }

  lemma DroppedAll(free: seq<Word>, lo: int, hi: int)
    ensures Dropped(free, lo, hi) == [] <==> forall j :: 0 <= j < |free| ==> lo < free[j] < hi
  {
    DroppedMembers(free, lo, hi);
    if Dropped(free, lo, hi) == [] {
      assert forall j :: 0 <= j < |free| ==> free[j] in free;
    } else {
      assert Dropped(free, lo, hi)[0] in free;
    }
  }

  lemma DroppedAround(pre: seq<Word>, r: Word, post: seq<Word>, lo: int)
    ensures Dropped(pre + [r] + post, lo, r) == Dropped(pre, lo, r) + [r] + Dropped(post, lo, r)
  {
    DroppedConcat(pre + [r], post, lo, r);
    DroppedConcat(pre, [r], lo, r);
    assert Dropped([r], lo, r) == [r];
  }

  lemma NeighboursAround(before: seq<Word>, r: Word, after: seq<Word>)
    requires Distinct(before + [r] + after) && NULL !in before && NULL !in after
    ensures PrevIn(before + [r] + after, r) == NULL <==> before == []
    ensures NextIn(before + [r] + after, r) == NULL <==> after == []
  {
    var list := before + [r] + after;
    assert list[|before|] == r;
    NeighboursAt(list, |before|);
    if before != [] {
      assert list[|before| - 1] == before[|before| - 1] && before[|before| - 1] in before;
    }
    if after != [] {
      assert list[|before| + 1] == after[0] && after[0] in after;
    }
  }

  lemma LeadsAround(pre: seq<Word>, r: Word, post: seq<Word>, lo: int)
    requires Distinct(pre + [r] + post)
    ensures LeadsFrom(pre + [r] + post, lo, r) <==> forall j :: 0 <= j < |pre| ==> lo < pre[j] < r
    ensures TrailsFrom(pre + [r] + post, lo, r) <==> forall j :: 0 <= j < |post| ==> lo < post[j] < r
  {
    var free := pre + [r] + post;
    var k := |pre|;
    assert free[k] == r && forall i :: 0 <= i < |free| && free[i] == r ==> i == k;
    assert forall j :: 0 <= j < |pre| ==> pre[j] == free[j];
    assert forall j :: 0 <= j < |post| ==> post[j] == free[k + 1 + j];
    assert forall j :: k < j < |free| ==> free[j] == post[j - k - 1];
  }

  /** A link of a block that was taken out is NULL exactly if the block led, or ended, what was left of the list. */
  lemma LinkLeft(free: seq<Word>, lo: int, r: Word)
    requires Distinct(free) && r in free && NULL !in free
    ensures PrevIn(Dropped(free, lo, r), r) == NULL <==> LeadsFrom(free, lo, r)
    ensures NextIn(Dropped(free, lo, r), r) == NULL <==> TrailsFrom(free, lo, r)
  {
    hide Dropped, PrevIn, NextIn, LeadsFrom, TrailsFrom, Distinct;
    var k :| 0 <= k < |free| && free[k] == r;
    var pre, post := free[..k], free[k + 1..];
    assert free == pre + [r] + post;
    DroppedAround(pre, r, post, lo);
    DroppedDistinct(free, lo, r);
    DroppedMembers(pre, lo, r);
    DroppedMembers(post, lo, r);
    NeighboursAround(Dropped(pre, lo, r), r, Dropped(post, lo, r));
    DroppedAll(pre, lo, r);
    DroppedAll(post, lo, r);
    LeadsAround(pre, r, post, lo);
  }

  /** The word left is NULL exactly where Blank says so. */
  lemma LeftIsBlank(m0: WordMemory, b0: Blocks, free0: seq<Word>, t0: Totals, lo: int, hi: int, r0: int, q: int)
    requires Sound(m0, b0, free0, {}, t0, lo, hi) && r0 in b0 && b0[r0].free
    ensures WordLeft(m0, b0, free0, r0, q) == NULL <==> Blank(m0, b0, free0, r0, q)
  {
    hide Dropped, PrevIn, NextIn, LeadsFrom, TrailsFrom, Chained, Walk;
    ListedMembers(b0, free0, {});
    SpacedDistinct(free0);
    assert NULL !in free0;
    if q - PREVIOUS in b0 && b0[q - PREVIOUS].free {
      LinkLeft(free0, r0, q - PREVIOUS);
    } else if q - NEXT in b0 && b0[q - NEXT].free {
      LinkLeft(free0, r0, q - NEXT);
    }
  }

  lemma AllInRun(b0: Blocks, free0: seq<Word>, r0: Word, e: int)
    requires Listed(b0, free0, {}) && Dropped(free0, r0, e) == [r0]
    ensures forall x :: x in free0 ==> x == r0 || r0 < x < e
  {
    DroppedMembers(free0, r0, e);
  }

  /** What the absorption of a run leaves behind, if nothing else is on the list. */
  lemma LeftBehind(m0: WordMemory, b0: Blocks, free0: seq<Word>, t0: Totals, m: WordMemory, lo: int, hi: int, r0: Word,
          e: int, q: int)
    requires Sound(m0, b0, free0, {}, t0, lo, hi) && r0 in b0 && b0[r0].free
    requires Leaves(m0, b0, free0, m, [r0], r0, e) && Linked(m, [r0]) && r0 + PREVIOUS <= q < e
    ensures m(q) == WordLeft(m0, b0, free0, r0, q)
  {
    hide Dropped, PrevIn, NextIn, Chained, Walk, Tiling, Headers;
    assert LinkedAt(m, [r0], 0);
    AllInRun(b0, free0, r0, e);
    ListedMembers(b0, free0, {});
    assert forall i :: 0 <= i < |free0| ==> free0[i] in free0;
  }

  ghost predicate LeftIn(m0: WordMemory, b0: Blocks, free0: seq<Word>, m: WordMemory, r0: int, e: int) {
    forall q :: r0 + PREVIOUS <= q < e ==> m(q) == WordLeft(m0, b0, free0, r0, q)
  }

  lemma FirstTwo(free: seq<Word>)
    requires Spaced(free)
    ensures |free| > 1 ==> free[0] != free[1]
  {
  }

  /** If there is no free block but those of the run after h, the block that they coalesce into is all of the list. */
  lemma RunIsList(b0: Blocks, b: Blocks, free: seq<Word>, hi: int, h: int, right: Word)
    requires h in b0 && right == End(b0, h) && right in b0 && !HasSpare(b0, hi, h)
    requires Absorbed(b0, b, right) && b[right].free && End(b, right) == RunEnd(b0, right, hi)
    requires Listed(b, free, {}) && Spaced(free)
    ensures free == [right]
  {
    hide RunEnd;
    ListedMembers(b, free, {});
    forall x | x in free
      ensures x == right
    {
      assert !Spare(b0, hi, h, x);
    }
    assert right in free && forall i :: 0 <= i < |free| ==> free[i] in free;
    FirstTwo(free);
  }

  /** Its block is taken off the list by no store at all. */
  lemma AbsorbedAlone(mem: WordMemory, h: int, v: Word, right: Word, q: int)
    requires Linked(mem, [right]) && q != h
    ensures AbsorbStores(mem, h, v, right)(q) == mem(q)
  {
    assert LinkedAt(mem, [right], 0);
  }

  lemma AbsorbLeaves(m0: WordMemory, b0: Blocks, free0: seq<Word>, t0: Totals, mem: WordMemory, blocks: Blocks,
          free: seq<Word>, t: Totals, lo: int, hi: int, h: int, v: Word, right: Word)
    requires Good(m0, b0, free0, t0, lo, hi) && Good(mem, blocks, free, t, lo, hi)
    requires h in b0 && right == End(b0, h) && right in b0 && b0[right].free
    requires right in blocks && blocks[right].free && Absorbed(b0, blocks, right) && End(blocks, right) == RunEnd(b0, right, hi)
    requires Leaves(m0, b0, free0, mem, free, right, End(blocks, right))
    ensures !HasSpare(b0, hi, h) ==>
      LeftIn(m0, b0, free0, AbsorbStores(mem, h, v, right), right, End(blocks, right))
  {
    hide Tiling, Headers, Walk, Linked, Leaves, AbsorbStores, WordLeft, Listed, Spaced, RunEnd, Absorbed, HasSpare;
    if !HasSpare(b0, hi, h) {
      RunIsList(b0, blocks, free, hi, h, right);
      BlockRead(m0, b0, free0, t0, lo, hi, h);
      forall q | right + PREVIOUS <= q < End(blocks, right)
        ensures AbsorbStores(mem, h, v, right)(q) == WordLeft(m0, b0, free0, right, q)
      {
        LeftBehind(m0, b0, free0, t0, mem, lo, hi, right, End(blocks, right), q);
        AbsorbedAlone(mem, h, v, right, q);
      }
    }
  }

  // ---- whether equiv_realloc leaves the free list in order ----

  /** When a block that was too small has grown in place: nothing is split off, or the list is not empty, or what the
      absorption left at the links of the block that is split off happens to be NULL twice. */
  ghost predicate KeptInPlace(m0: WordMemory, b0: Blocks, free0: seq<Word>, h: int, needs: int, hi: int)
    requires h in b0
  {
    var n := h + METADATA + needs;
    || RunEnd(b0, End(b0, h), hi) - n < METADATA + MINIMUM_PAYLOAD
    || HasSpare(b0, hi, h)
    || (Blank(m0, b0, free0, End(b0, h), n + PREVIOUS) && Blank(m0, b0, free0, End(b0, h), n + NEXT))
  }

  /** When its data was moved to block d: d is split, or another block is free, or the payload that is given up begins
      with two words that are NULL. */
  ghost predicate KeptByMove(m0: WordMemory, b0: Blocks, h: int, d: int, needs: int, hi: int)
    requires h in b0
  {
    && d in b0
    && (|| Trims(b0, d, needs)
        || (exists f :: f != d && Spare(b0, hi, h, f))
        || (m0(h + PREVIOUS) == NULL && m0(h + NEXT) == NULL))
  }

  lemma InPlaceKept(m0: WordMemory, b0: Blocks, free0: seq<Word>, t0: Totals, m: WordMemory, b: Blocks, free: seq<Word>,
          lo: int, hi: int, h: int, needs: int, linked: bool)
    requires Good(m0, b0, free0, t0, lo, hi) && h in b0 && !b0[h].free && b0[h].size < needs
    requires h in b && needs <= b[h].size && End(b, h) == RunEnd(b0, End(b0, h), hi)
    requires free == [] <==> !HasSpare(b0, hi, h)
    requires !HasSpare(b0, hi, h) && End(b, h) != End(b0, h) ==> LeftIn(m0, b0, free0, m, End(b0, h), End(b, h))
    requires linked <==>
      (Trims(b, h, needs) && free == [] ==>
         m(h + METADATA + needs + PREVIOUS) == NULL && m(h + METADATA + needs + NEXT) == NULL)
    ensures linked <==> KeptInPlace(m0, b0, free0, h, needs, hi)
  {
    hide Chained, Headers, Walk, Linked, WordLeft, Listed, Spaced, HasSpare, Blank;
    var n := h + METADATA + needs;
    if Trims(b, h, needs) && free == [] {
      assert End(b0, h) in b0 && b0[End(b0, h)].free;
      LeftIsBlank(m0, b0, free0, t0, lo, hi, End(b0, h), n + PREVIOUS);
      LeftIsBlank(m0, b0, free0, t0, lo, hi, End(b0, h), n + NEXT);
    }
  }

  /** What is free when d has been allocated: the rest of d, if there is one, and what else was free. */
  lemma FreeAfterAllocating(b: Blocks, d: int, needs: int)
    requires d in b && needs >= MINIMUM_PAYLOAD
    ensures HasFree(Trimmed(WithStatus(b, d, false), d, needs)) <==>
      Trims(b, d, needs) || exists f :: f != d && f in b && b[f].free
  {
    var b' := Trimmed(WithStatus(b, d, false), d, needs);
    var n := d + METADATA + needs;
    if Trims(b, d, needs) {
      assert n in b' && b'[n].free;
    } else if f :| f != d && f in b && b[f].free {
      assert f in b' && b'[f].free;
    }
  }

  lemma MoveKept(m0: WordMemory, b0: Blocks, free0: seq<Word>, t0: Totals, m: WordMemory, b: Blocks, lo: int, hi: int,
          h: int, d: int, needs: int, linked: bool)
    requires Good(m0, b0, free0, t0, lo, hi) && h in b0 && !b0[h].free && needs >= MINIMUM_PAYLOAD
    requires Absorbed(b0, b, h) && End(b, h) == RunEnd(b0, End(b0, h), hi) && Keeps(m0, m, h + METADATA, b0[h].size)
    requires d in b && b[d].free
    requires linked <==>
      HasFree(Trimmed(WithStatus(b, d, false), d, needs)) || (m(h + PREVIOUS) == NULL && m(h + NEXT) == NULL)
    ensures linked <==> KeptByMove(m0, b0, h, d, needs, hi)
  {
    hide Chained, Headers, Walk, Linked, Listed, Spaced, RunEnd;
    FreeAfterAllocating(b, d, needs);
    hide Trimmed, WithStatus, HasFree;
    forall f
      ensures Spare(b0, hi, h, f) <==> f in b && b[f].free
    {
      SpareAfterAbsorbing(b0, b, lo, hi, h, f);
    }
    assert Spare(b0, hi, h, d) && b[d] == b0[d];
    hide Spare;
  }
}
