/** equiv-malloc.c on values: what the blocks, the in-band headers and the free list of a well-formed heap look like. */
module HeapLayout {
  import opened Words

  /** The word at every address. Only word-aligned addresses are used. */
  type WordMemory = int -> Word

  const NULL := 0
  const METADATA := 4          // sizeof(metadata_t)
  const PREVIOUS := 4          // offsets of the links in a free block
  const NEXT := 8
  const MINIMUM_PAYLOAD := 16

  /** A block's payload size and status, by the address of its header. */
  datatype Block = Block(size: int, free: bool)
  type Blocks = map<int, Block>

  function Put(mem: WordMemory, p: int, v: Word): WordMemory {
    a => if a == p then v else mem(a)
  }

  /** The metadata word: the size with the status in its lowest bit. */
  function Metadata(b: Block): int {
    b.size + if b.free then 1 else 0
  }

  function SizeOf(metadata: Word): Word {
    metadata - metadata % 2
  }

  function IsFree(metadata: Word): bool {
    metadata % 2 == 1
  }

  /** get_payload_end. */
  function End(blocks: Blocks, a: int): int
    requires a in blocks
  {
    a + METADATA + blocks[a].size
  }

  // ---- tiling ----

  /** a ends where another block begins, or at the end of the heap. */
  ghost predicate Follows(blocks: Blocks, hi: int, a: int)
    requires a in blocks
  {
    End(blocks, a) == hi || End(blocks, a) in blocks
  }

  ghost predicate Inside(blocks: Blocks, lo: int, hi: int) {
    forall a :: a in blocks ==> lo <= a && blocks[a].size >= MINIMUM_PAYLOAD && End(blocks, a) <= hi
  }

  ghost predicate Chained(blocks: Blocks, hi: int) {
    forall a {:trigger Follows(blocks, hi, a)} :: a in blocks ==> Follows(blocks, hi, a)
  }

  ghost predicate Apart(blocks: Blocks) {
    forall a, b :: a in blocks && b in blocks && a < b ==> End(blocks, a) <= b
  }

  /** Every block ends where another begins or at the end of the heap, blocks do not overlap, and one begins at lo. */
  ghost predicate Tiling(blocks: Blocks, lo: int, hi: int) {
    lo in blocks && Inside(blocks, lo, hi) && Chained(blocks, hi) && Apart(blocks)
  }

  /** Headers are word aligned, and a size leaves the status bit clear. */
  ghost predicate Aligned(blocks: Blocks) {
    forall a :: a in blocks ==> a % 4 == 0 && blocks[a].size % 2 == 0
  }

  /** A tiling leaves no gaps: whatever lies above a block's header lies in that block or in one further on. */
  lemma {:induction false} TilingCovers(blocks: Blocks, lo: int, hi: int, a: int, q: int) returns (b: int)
    requires Tiling(blocks, lo, hi) && a in blocks && a <= q < hi
    ensures b in blocks && a <= b <= q < End(blocks, b)
    decreases hi - a
  {
    if q < End(blocks, a) {
      b := a;
    } else {
      assert Follows(blocks, hi, a);
      b := TilingCovers(blocks, lo, hi, End(blocks, a), q);
    }
  }

  function WithStatus(blocks: Blocks, h: int, free: bool): Blocks
    requires h in blocks
  {
    blocks[h := Block(blocks[h].size, free)]
  }

  /** h swallows the block that follows it. */
  function Merged(blocks: Blocks, h: int): Blocks
    requires h in blocks && End(blocks, h) in blocks
  {
    var n := End(blocks, h);
    (blocks - {n})[h := Block(blocks[h].size + METADATA + blocks[n].size, blocks[h].free)]
  }

  /** h keeps `needs` bytes, the rest becomes a free block. */
  function Split(blocks: Blocks, h: int, needs: int): Blocks
    requires h in blocks
  {
    blocks[h := Block(needs, blocks[h].free)][h + METADATA + needs := Block(blocks[h].size - needs - METADATA, true)]
  }

  lemma WithStatusTiling(blocks: Blocks, lo: int, hi: int, h: int, free: bool)
    requires Tiling(blocks, lo, hi) && Aligned(blocks) && h in blocks
    ensures Tiling(WithStatus(blocks, h, free), lo, hi) && Aligned(WithStatus(blocks, h, free))
  {
    var blocks' := WithStatus(blocks, h, free);
    assert Aligned(blocks');
    hide Aligned;
    forall a | a in blocks'
      ensures Follows(blocks', hi, a)
    {
      assert Follows(blocks, hi, a);
    }
  }

  lemma MergedFollows(blocks: Blocks, lo: int, hi: int, h: int)
    requires Tiling(blocks, lo, hi) && h in blocks && End(blocks, h) in blocks
    ensures Follows(blocks, hi, End(blocks, h))
  {
  }

  lemma MergedChained(blocks: Blocks, lo: int, hi: int, h: int)
    requires Tiling(blocks, lo, hi) && h in blocks && End(blocks, h) in blocks
    ensures Chained(Merged(blocks, h), hi) && lo in Merged(blocks, h)
    ensures h in Merged(blocks, h) && End(Merged(blocks, h), h) == End(blocks, End(blocks, h))
  {
    var n := End(blocks, h);
    var blocks' := Merged(blocks, h);
    assert Follows(blocks, hi, n);
    forall a | a in blocks'
      ensures Follows(blocks', hi, a)
    {
      assert Follows(blocks, hi, a);
    }
  }

  lemma MergedApart(blocks: Blocks, lo: int, hi: int, h: int)
    requires Tiling(blocks, lo, hi) && h in blocks && End(blocks, h) in blocks
    ensures Inside(Merged(blocks, h), lo, hi) && Apart(Merged(blocks, h))
  {
    hide Chained;
    var n := End(blocks, h);
    var blocks' := Merged(blocks, h);
    forall a, b | a in blocks' && b in blocks' && a < b
      ensures End(blocks', a) <= b
    {
      assert End(blocks, a) <= b;
      assert a == h ==> n < b;
    }
  }

  lemma MergedAligned(blocks: Blocks, h: int)
    requires Aligned(blocks) && h in blocks && End(blocks, h) in blocks
    ensures Aligned(Merged(blocks, h))
  {
  }

  lemma MergedTiling(blocks: Blocks, lo: int, hi: int, h: int)
    requires Tiling(blocks, lo, hi) && Aligned(blocks) && h in blocks && End(blocks, h) in blocks
    ensures Tiling(Merged(blocks, h), lo, hi) && Aligned(Merged(blocks, h))
    ensures h in Merged(blocks, h) && End(Merged(blocks, h), h) == End(blocks, End(blocks, h))
    ensures |Merged(blocks, h)| < |blocks|
  {
    hide Chained, Inside, Apart, Aligned, Merged;
    MergedAligned(blocks, h);
    MergedChained(blocks, lo, hi, h);
    MergedApart(blocks, lo, hi, h);
    MergedSmaller(blocks, lo, hi, h);
  }

  lemma MergedSmaller(blocks: Blocks, lo: int, hi: int, h: int)
    requires Tiling(blocks, lo, hi) && h in blocks && End(blocks, h) in blocks
    ensures |Merged(blocks, h)| < |blocks|
  {
    hide Chained, Apart;
    var blocks' := Merged(blocks, h);
    assert blocks'.Keys == blocks.Keys - {End(blocks, h)};
    assert |blocks'.Keys| == |blocks'| && |blocks.Keys| == |blocks|;
  }

  /** Where the rest of h begins, nothing else does. */
  lemma SplitPoint(blocks: Blocks, lo: int, hi: int, h: int, needs: int)
    requires Tiling(blocks, lo, hi) && h in blocks
    requires needs >= MINIMUM_PAYLOAD && blocks[h].size - needs >= METADATA + MINIMUM_PAYLOAD
    ensures h + METADATA + needs !in blocks
  {
    var n := h + METADATA + needs;
    assert h < n < End(blocks, h);
  }

  lemma SplitChained(blocks: Blocks, lo: int, hi: int, h: int, needs: int)
    requires Tiling(blocks, lo, hi) && h in blocks
    requires needs >= MINIMUM_PAYLOAD && blocks[h].size - needs >= METADATA + MINIMUM_PAYLOAD
    ensures Chained(Split(blocks, h, needs), hi) && lo in Split(blocks, h, needs)
  {
    hide Apart, Inside;
    var n := h + METADATA + needs;
    var blocks' := Split(blocks, h, needs);
    SplitPoint(blocks, lo, hi, h, needs);
    assert Follows(blocks, hi, h);
    forall a | a in blocks'
      ensures Follows(blocks', hi, a)
    {
      if a != n {
        assert Follows(blocks, hi, a);
      }
    }
  }

  lemma SplitApart(blocks: Blocks, lo: int, hi: int, h: int, needs: int)
    requires Tiling(blocks, lo, hi) && h in blocks
    requires needs >= MINIMUM_PAYLOAD && blocks[h].size - needs >= METADATA + MINIMUM_PAYLOAD
    ensures Inside(Split(blocks, h, needs), lo, hi) && Apart(Split(blocks, h, needs))
  {
    hide Chained;
    var n := h + METADATA + needs;
    var blocks' := Split(blocks, h, needs);
    SplitPoint(blocks, lo, hi, h, needs);
    forall a, b | a in blocks' && b in blocks' && a < b
      ensures End(blocks', a) <= b
    {
      if a == n {
        assert End(blocks', n) == End(blocks, h) <= b;
      } else if b == n {
        assert a != h ==> a < h && End(blocks, a) <= h;
      }
    }
  }

  lemma SplitTiling(blocks: Blocks, lo: int, hi: int, h: int, needs: int)
    requires Tiling(blocks, lo, hi) && Aligned(blocks) && h in blocks
    requires needs >= MINIMUM_PAYLOAD && needs % 4 == 0 && blocks[h].size - needs >= METADATA + MINIMUM_PAYLOAD
    ensures Tiling(Split(blocks, h, needs), lo, hi) && Aligned(Split(blocks, h, needs))
    ensures h + METADATA + needs !in blocks
  {
    hide Chained, Inside, Apart;
    SplitPoint(blocks, lo, hi, h, needs);
    SplitChained(blocks, lo, hi, h, needs);
    SplitApart(blocks, lo, hi, h, needs);
  }

  // ---- accounting ----

  datatype Totals = Totals(usedBlocks: int, freeBlocks: int, usedBytes: int, freeBytes: int)

  function Sum(s: Totals, t: Totals): Totals {
    Totals(s.usedBlocks + t.usedBlocks, s.freeBlocks + t.freeBlocks, s.usedBytes + t.usedBytes, s.freeBytes + t.freeBytes)
  }

  function One(b: Block): Totals {
    if b.free then Totals(0, 1, 0, b.size) else Totals(1, 0, b.size, 0)
  }

  const NOTHING := Totals(0, 0, 0, 0)

  /** What a walk over the blocks from a up to hi counts. */
  ghost function Walk(blocks: Blocks, a: int, hi: int): Totals
    decreases hi - a
  {
    if a in blocks && a < End(blocks, a) <= hi then Sum(One(blocks[a]), Walk(blocks, End(blocks, a), hi)) else NOTHING
  }

  lemma {:induction false} WalkSplit(blocks: Blocks, lo: int, hi: int, a: int, m: int)
    requires Tiling(blocks, lo, hi) && a in blocks && a <= m && (m in blocks || m == hi)
    ensures Walk(blocks, a, hi) == Sum(Walk(blocks, a, m), Walk(blocks, m, hi))
    decreases m - a
  {
    if a == m {
    } else {
      assert Follows(blocks, hi, a);
      if End(blocks, a) < hi {
        WalkSplit(blocks, lo, hi, End(blocks, a), m);
      }
    }
  }

  lemma {:induction false} WalkAgrees(blocks: Blocks, blocks': Blocks, a: int, m: int)
    requires forall x :: a <= x < m ==> (x in blocks <==> x in blocks') && (x in blocks ==> blocks[x] == blocks'[x])
    ensures Walk(blocks, a, m) == Walk(blocks', a, m)
    decreases m - a
  {
    if a in blocks && a < End(blocks, a) <= m {
      WalkAgrees(blocks, blocks', End(blocks, a), m);
    } else {
      assert a < m ==> (a in blocks <==> a in blocks');
    }
  }

  /** Changing the blocks between h and e changes the totals by what changes there. */
  lemma WalkReplaced(blocks: Blocks, blocks': Blocks, lo: int, hi: int, h: int, e: int)
    requires Tiling(blocks, lo, hi) && Tiling(blocks', lo, hi) && h in blocks && h in blocks' && lo <= h < e
    requires (e in blocks && e in blocks') || e == hi
    requires forall x :: x < h || x >= e ==> (x in blocks <==> x in blocks') && (x in blocks ==> blocks[x] == blocks'[x])
    ensures Walk(blocks', lo, hi) == Sum(Sum(Walk(blocks, lo, h), Walk(blocks', h, e)), Walk(blocks, e, hi))
    ensures Walk(blocks, lo, hi) == Sum(Sum(Walk(blocks, lo, h), Walk(blocks, h, e)), Walk(blocks, e, hi))
  {
    hide Walk, Inside, Apart;
    WalkSplit(blocks, lo, hi, lo, h);
    WalkSplit(blocks, lo, hi, h, e);
    WalkSplit(blocks', lo, hi, lo, h);
    WalkSplit(blocks', lo, hi, h, e);
    WalkAgrees(blocks, blocks', lo, h);
    WalkAgrees(blocks, blocks', e, hi);
  }

  lemma WithStatusWalk(blocks: Blocks, lo: int, hi: int, h: int, free: bool)
    requires Tiling(blocks, lo, hi) && Aligned(blocks) && h in blocks
    ensures Sum(Walk(WithStatus(blocks, h, free), lo, hi), One(blocks[h])) == Sum(Walk(blocks, lo, hi), One(Block(blocks[h].size, free)))
  {
    var blocks' := WithStatus(blocks, h, free);
    WithStatusTiling(blocks, lo, hi, h, free);
    var e := End(blocks, h);
    assert Walk(blocks, h, e) == One(blocks[h]);
    assert Walk(blocks', h, e) == One(blocks'[h]);
    assert Follows(blocks, hi, h) && lo <= h;
    hide Walk, Tiling, Aligned;
    WalkReplaced(blocks, blocks', lo, hi, h, e);
  }

  lemma MergedSegment(blocks: Blocks, lo: int, hi: int, h: int)
    requires Tiling(blocks, lo, hi) && h in blocks && End(blocks, h) in blocks
    ensures var n := End(blocks, h); var e := End(blocks, n); var blocks' := Merged(blocks, h);
      && lo <= h < e && Follows(blocks, hi, n) && h in blocks'
      && Walk(blocks, h, e) == Sum(One(blocks[h]), One(blocks[n])) && Walk(blocks', h, e) == One(blocks'[h])
  {
    hide Chained, Apart;
    var n := End(blocks, h);
    var e := End(blocks, n);
    MergedFollows(blocks, lo, hi, h);
    assert Walk(blocks, n, e) == One(blocks[n]);
  }

  lemma MergedElsewhere(blocks: Blocks, lo: int, hi: int, h: int)
    requires Tiling(blocks, lo, hi) && h in blocks && End(blocks, h) in blocks
    ensures var e := End(blocks, End(blocks, h)); var blocks' := Merged(blocks, h);
      forall x :: x < h || x >= e ==> (x in blocks <==> x in blocks') && (x in blocks ==> blocks[x] == blocks'[x])
  {
    hide Chained, Apart;
  }

  lemma MergedWalk(blocks: Blocks, lo: int, hi: int, h: int)
    requires Tiling(blocks, lo, hi) && Aligned(blocks) && h in blocks && End(blocks, h) in blocks
    ensures Sum(Walk(Merged(blocks, h), lo, hi), Sum(One(blocks[h]), One(blocks[End(blocks, h)]))) ==
            Sum(Walk(blocks, lo, hi), One(Merged(blocks, h)[h]))
  {
    hide Walk, Tiling, Aligned;
    var blocks' := Merged(blocks, h);
    var e := End(blocks, End(blocks, h));
    MergedTiling(blocks, lo, hi, h);
    MergedSegment(blocks, lo, hi, h);
    MergedElsewhere(blocks, lo, hi, h);
    WalkReplaced(blocks, blocks', lo, hi, h, e);
  }

  lemma SplitSegment(blocks: Blocks, lo: int, hi: int, h: int, needs: int)
    requires Tiling(blocks, lo, hi) && h in blocks
    requires needs >= MINIMUM_PAYLOAD && blocks[h].size - needs >= METADATA + MINIMUM_PAYLOAD
    ensures var n := h + METADATA + needs; var e := End(blocks, h); var blocks' := Split(blocks, h, needs);
      && lo <= h < e && Follows(blocks, hi, h) && h in blocks' && n in blocks' && h < n < e
      && Walk(blocks, h, e) == One(blocks[h]) && Walk(blocks', h, e) == Sum(One(blocks'[h]), One(blocks'[n]))
  {
    hide Apart;
    var n := h + METADATA + needs;
    var e := End(blocks, h);
    var blocks' := Split(blocks, h, needs);
    assert Follows(blocks, hi, h);
    assert Walk(blocks', n, e) == One(blocks'[n]);
  }

  lemma SplitWalk(blocks: Blocks, lo: int, hi: int, h: int, needs: int)
    requires Tiling(blocks, lo, hi) && Aligned(blocks) && h in blocks
    requires needs >= MINIMUM_PAYLOAD && needs % 4 == 0 && blocks[h].size - needs >= METADATA + MINIMUM_PAYLOAD
    ensures var blocks' := Split(blocks, h, needs);
      Sum(Walk(blocks', lo, hi), One(blocks[h])) == Sum(Walk(blocks, lo, hi), Sum(One(blocks'[h]), One(blocks'[h + METADATA + needs])))
  {
    hide Walk, Tiling, Aligned;
    SplitTiling(blocks, lo, hi, h, needs);
    SplitSegment(blocks, lo, hi, h, needs);
    WalkReplaced(blocks, Split(blocks, h, needs), lo, hi, h, End(blocks, h));
  }

  /** Header bytes and payload bytes make up the heap. */
  lemma {:induction false} WalkTotal(blocks: Blocks, lo: int, hi: int, a: int)
    requires Tiling(blocks, lo, hi) && (a in blocks || a == hi)
    ensures var t := Walk(blocks, a, hi);
      && METADATA * (t.usedBlocks + t.freeBlocks) + t.usedBytes + t.freeBytes == hi - a
      && t.usedBlocks >= 0 && t.freeBlocks >= 0 && t.usedBytes >= 0 && t.freeBytes >= 0
      && (t.usedBlocks == 0 ==> t.usedBytes == 0) && (t.freeBlocks == 0 ==> t.freeBytes == 0)
    decreases hi - a
  {
    if a in blocks {
      assert Follows(blocks, hi, a);
      WalkTotal(blocks, lo, hi, End(blocks, a));
    }
  }

  // ---- headers and the free list ----

  ghost predicate Headers(mem: WordMemory, blocks: Blocks) {
    forall a :: a in blocks ==> mem(a) == Metadata(blocks[a])
  }

  /** The list names the free blocks and those in extra, and nothing else. */
  ghost predicate Listed(blocks: Blocks, free: seq<Word>, extra: set<int>) {
    && (forall i :: 0 <= i < |free| ==> free[i] in blocks && (blocks[free[i]].free || free[i] in extra))
    && (forall a :: a in blocks && (blocks[a].free || a in extra) ==> a in free)
  }

  /** Headers and links of different list members do not overlap (so each occurs once), and none is at NULL. */
  ghost predicate Spaced(free: seq<Word>) {
    && (forall i :: 0 <= i < |free| ==> free[i] > NULL)
    && (forall i, j :: 0 <= i < j < |free| ==> free[i] + NEXT < free[j] || free[j] + NEXT < free[i])
  }

  function FirstOf(free: seq<Word>): Word {
    if free == [] then NULL else free[0]
  }

  function PrevOf(free: seq<Word>, i: nat): Word
    requires i < |free|
  {
    if i == 0 then NULL else free[i - 1]
  }

  function NextOf(free: seq<Word>, i: nat): Word
    requires i < |free|
  {
    if i + 1 < |free| then free[i + 1] else NULL
  }

  ghost predicate LinkedAt(mem: WordMemory, free: seq<Word>, i: nat)
    requires i < |free|
  {
    mem(free[i] + PREVIOUS) == PrevOf(free, i) && mem(free[i] + NEXT) == NextOf(free, i)
  }

  /** The links in the blocks' payloads are those of the list. */
  ghost predicate Linked(mem: WordMemory, free: seq<Word>) {
    forall i :: 0 <= i < |free| ==> LinkedAt(mem, free, i)
  }

  function Without(free: seq<Word>, i: nat): seq<Word>
    requires i < |free|
  {
    free[..i] + free[i + 1..]
  }

  /** The stores of remove_free_block. */
  function Unlink(mem: WordMemory, h: int): WordMemory {
    var previous, next := mem(h + PREVIOUS), mem(h + NEXT);
    var m1 := if previous == NULL then mem else Put(mem, previous + NEXT, next);
    if next == NULL then m1 else Put(m1, next + PREVIOUS, previous)
  }

  /** The stores of append_free_block. */
  function Prepend(mem: WordMemory, first: Word, h: Word): WordMemory {
    if first == NULL then mem
    else Put(Put(Put(mem, h + NEXT, first), h + PREVIOUS, NULL), first + PREVIOUS, h)
  }

  /** Only words that hold links of list members may differ. */
  ghost predicate OnlyLinks(mem: WordMemory, mem': WordMemory, free: seq<Word>) {
    forall q :: (forall i :: 0 <= i < |free| ==> q != free[i] + PREVIOUS && q != free[i] + NEXT) ==> mem'(q) == mem(q)
  }

  lemma UnlinkStores(mem: WordMemory, free: seq<Word>, i: nat, q: int)
    requires Linked(mem, free) && Spaced(free) && i < |free|
    ensures Unlink(mem, free[i])(q) ==
      if i > 0 && q == free[i - 1] + NEXT then NextOf(free, i)
      else if i + 1 < |free| && q == free[i + 1] + PREVIOUS then PrevOf(free, i)
      else mem(q)
  {
    assert LinkedAt(mem, free, i);
  }

  lemma UnlinkLinkedAt(mem: WordMemory, free: seq<Word>, i: nat, j: nat)
    requires Linked(mem, free) && Spaced(free) && i < |free| && j < |free| - 1
    ensures LinkedAt(Unlink(mem, free[i]), Without(free, i), j)
  {
    hide Unlink, Linked;
    var rest := Without(free, i);
    var k := if j < i then j else j + 1;
    assert LinkedAt(mem, free, k) by { LinkedEach(mem, free, k); }
    assert rest[j] == free[k];
    assert PrevOf(rest, j) == (if k == i + 1 then PrevOf(free, i) else PrevOf(free, k));
    assert NextOf(rest, j) == (if k == i - 1 then NextOf(free, i) else NextOf(free, k));
    UnlinkStores(mem, free, i, free[k] + PREVIOUS);
    UnlinkStores(mem, free, i, free[k] + NEXT);
  }

  lemma LinkedEach(mem: WordMemory, free: seq<Word>, k: nat)
    requires Linked(mem, free) && k < |free|
    ensures LinkedAt(mem, free, k)
  {
  }

  lemma UnlinkLinked(mem: WordMemory, free: seq<Word>, i: nat)
    requires Linked(mem, free) && Spaced(free) && i < |free|
    ensures Linked(Unlink(mem, free[i]), Without(free, i)) && Spaced(Without(free, i))
    ensures OnlyLinks(mem, Unlink(mem, free[i]), free)
  {
    hide Unlink, LinkedAt;
    forall q | forall i :: 0 <= i < |free| ==> q != free[i] + PREVIOUS && q != free[i] + NEXT
      ensures Unlink(mem, free[i])(q) == mem(q)
    {
      UnlinkStores(mem, free, i, q);
    }
    forall j | 0 <= j < |free| - 1
      ensures LinkedAt(Unlink(mem, free[i]), Without(free, i), j)
    {
      UnlinkLinkedAt(mem, free, i, j);
    }
  }

  lemma PrependLinked(mem: WordMemory, free: seq<Word>, h: Word)
    requires Linked(mem, free) && Spaced([h] + free) && free != []
    ensures Linked(Prepend(mem, free[0], h), [h] + free)
    ensures OnlyLinks(mem, Prepend(mem, free[0], h), [h] + free)
  {
    var list := [h] + free;
    var mem' := Prepend(mem, free[0], h);
    assert list[0] == h && list[1] == free[0];
    forall j | 0 <= j < |list|
      ensures LinkedAt(mem', list, j)
    {
      if j > 0 {
        assert list[j] == free[j - 1] && LinkedAt(mem, free, j - 1);
      }
    }
  }

  /** On an empty list the links stay what the payload held, so the list is in order exactly if that was NULL twice. */
  lemma PrependToEmpty(mem: WordMemory, h: Word)
    ensures Linked(Prepend(mem, NULL, h), [h]) <==> mem(h + PREVIOUS) == NULL && mem(h + NEXT) == NULL
  {
    assert Linked(Prepend(mem, NULL, h), [h]) <==> LinkedAt(mem, [h], 0);
  }

  /** A list that is not empty stays in order when a block is put in front; an empty one does exactly if the words that
      are to hold its links were NULL. */
  lemma PrependGood(mem: WordMemory, free: seq<Word>, h: Word)
    requires Spaced([h] + free)
    ensures Linked(mem, free) ==>
      (Linked(Prepend(mem, FirstOf(free), h), [h] + free) <==>
        free != [] || (mem(h + PREVIOUS) == NULL && mem(h + NEXT) == NULL))
    ensures OnlyLinks(mem, Prepend(mem, FirstOf(free), h), [h] + free)
  {
    PrependToEmpty(mem, h);
    hide Linked;
    if free == [] {
      assert [h] + free == [h];
    } else {
      var list := [h] + free;
      assert list[0] == h && list[1] == free[0];
      if Linked(mem, free) {
        PrependLinked(mem, free, h);
      }
    }
  }

  // ---- the heap that equiv_malloc_init leaves ----

  /** A single free block. */
  function Whole(h: int, size: int): Blocks {
    map[h := Block(size, true)]
  }

  lemma OneBlock(mem: WordMemory, h: Word, size: int, hi: int)
    requires 0 < h && h % 4 == 0 && size >= MINIMUM_PAYLOAD && size % 2 == 0 && h + METADATA + size <= hi <= TWO_TO_THE_32
    requires mem(h) == size + 1 && mem(h + PREVIOUS) == NULL && mem(h + NEXT) == NULL
    ensures var blocks := Whole(h, size);
      && (Tiling(blocks, h, hi) <==> h + METADATA + size == hi)
      && Aligned(blocks) && Headers(mem, blocks) && Listed(blocks, [h], {}) && Spaced([h]) && Linked(mem, [h])
      && Walk(blocks, h, hi) == Totals(0, 1, 0, size)
  {
    var blocks := Whole(h, size);
    assert Walk(blocks, h + METADATA + size, hi) == NOTHING;
    if h + METADATA + size == hi {
      assert Follows(blocks, hi, h);
    } else {
      assert !Follows(blocks, hi, h);
    }
    assert LinkedAt(mem, [h], 0);
  }
}
