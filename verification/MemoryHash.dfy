/** memory.c: `hash_mem`, the hash of the bytes at a set of addresses, and `add_mem`. */
module MemoryHash {
  import opened Words
  import opened XXHash32
  import opened XXHash32Mixing
  import TrieSet

  /** The members of s below n in ascending order. */
  ghost function SortedBelow(s: set<int>, n: nat): (r: seq<nat>)
    ensures TrieSet.Ascending(r) && forall x: int :: x in r <==> x in s && 0 <= x < n
  {
    if n == 0 then [] else
    var init := SortedBelow(s, n - 1);
    assert forall k :: 0 <= k < |init| ==> init[k] in init;
    if n - 1 in s then init + [n - 1] else init
  }

  ghost predicate OfWords(s: set<int>) {
    forall x :: x in s ==> 0 <= x < TWO_TO_THE_32
  }

  /** The members of s in ascending order. */
  ghost function Sorted(s: set<int>): (r: seq<Word>)
    requires OfWords(s)
    ensures TrieSet.Ascending(r) && TrieSet.ToSet(r) == s
  {
    var r := SortedBelow(s, TWO_TO_THE_32);
    assert forall k :: 0 <= k < |r| ==> r[k] in r;
    r
  }

  /** A set has only one ascending enumeration. */
  lemma {:induction false} AscendingUnique(a: seq<nat>, b: seq<nat>)
    requires TrieSet.Ascending(a) && TrieSet.Ascending(b) && TrieSet.ToSet(a) == TrieSet.ToSet(b)
    ensures a == b
    decreases |a|
  {
    TrieSet.AscendingCardinality(a);
    TrieSet.AscendingCardinality(b);
    if a != [] {
      var x := a[|a| - 1];
      assert x in TrieSet.ToSet(a);
      var y := b[|b| - 1];
      assert y in TrieSet.ToSet(b);
      var i :| 0 <= i < |b| && b[i] == x;
      var j :| 0 <= j < |a| && a[j] == y;
      assert x == y;
      DropLast(a);
      DropLast(b);
      AscendingUnique(a[..|a| - 1], b[..|b| - 1]);
      assert a == a[..|a| - 1] + [x] && b == b[..|b| - 1] + [y];
    }
  }

  lemma DropLast(a: seq<nat>)
    requires TrieSet.Ascending(a) && a != []
    ensures TrieSet.ToSet(a[..|a| - 1]) == TrieSet.ToSet(a) - {a[|a| - 1]}
  {
    var init := a[..|a| - 1];
    forall x | x in a && x != a[|a| - 1]
      ensures x in init
    {
      var k :| 0 <= k < |a| && a[k] == x;
      assert init[k] == x;
    }
  }

  /** The bytes at these addresses. */
  function BytesAt(mem: Memory, addresses: seq<Word>): (r: seq<Byte>)
    ensures |r| == |addresses| && forall k :: 0 <= k < |r| ==> r[k] == mem(addresses[k])
  {
    seq(|addresses|, k requires 0 <= k < |addresses| => mem(addresses[k]))
  }

  /** The hash of a memory depends on the address set and the bytes there, and on nothing else. */
  ghost function HashOf(start: Lanes, addresses: set<int>, mem: Memory): Word
    requires OfWords(addresses)
  {
    Hash(start, BytesAt(mem, Sorted(addresses))) as int
  }

  /** The addresses of the set in ascending order, each once. */
  ghost predicate Enumerates(a: seq<Word>, addresses: set<int>) {
    TrieSet.Ascending(a) && TrieSet.ToSet(a) == addresses
  }

  /** Read in whatever way: it is the hash of exactly the bytes at the set's members, lowest address first. */
  lemma HashOfBytes(start: Lanes, addresses: set<int>, mem: Memory, a: seq<Word>, bytes: seq<Byte>)
    requires OfWords(addresses) && Enumerates(a, addresses)
    requires |bytes| == |a| && forall k :: 0 <= k < |a| ==> bytes[k] == mem(a[k])
    ensures HashOf(start, addresses, mem) == Hash(start, bytes) as int
  {
    hide Hash;
    AscendingUnique(a, Sorted(addresses));
    assert bytes == BytesAt(mem, Sorted(addresses));
  }

  lemma HashAsInt(x: bv32, y: bv32)
    requires x != y
    ensures x as int != y as int
  {
    assert (x as int) as bv32 == x && (y as int) as bv32 == y;
  }

  /** Memories that differ at exactly one address of the set have different hashes, and so the checker tells them apart. */
  lemma OneAddressMatters(start: Lanes, addresses: set<int>, mem: Memory, mem': Memory, x: Word)
    requires OfWords(addresses) && x in addresses && mem(x) != mem'(x)
    requires forall y: Word :: y in addresses && y != x ==> mem(y) == mem'(y)
    ensures HashOf(start, addresses, mem) != HashOf(start, addresses, mem')
  {
    hide Hash;
    var a := Sorted(addresses);
    var s, t := BytesAt(mem, a), BytesAt(mem', a);
    assert x in TrieSet.ToSet(a);
    var i :| 0 <= i < |a| && a[i] == x;
    forall k | 0 <= k < |a| && k != i
      ensures s[k] == t[k]
    {
      assert a[k] in TrieSet.ToSet(a);
    }
    assert DifferAt(s, t, i);
    OneByteMatters(start, s, t, i);
    HashAsInt(Hash(start, s), Hash(start, t));
  }

  /** Memories that agree on the address set have the same hash. */
  lemma HashOfAgrees(start: Lanes, addresses: set<int>, mem: Memory, mem': Memory)
    requires OfWords(addresses)
    requires forall x: Word :: x in addresses ==> mem(x) == mem'(x)
    ensures HashOf(start, addresses, mem) == HashOf(start, addresses, mem')
  {
    var q := Sorted(addresses);
    forall k | 0 <= k < |q|
      ensures BytesAt(mem, q)[k] == BytesAt(mem', q)[k]
    {
      assert q[k] in TrieSet.ToSet(q);
    }
    assert BytesAt(mem, q) == BytesAt(mem', q);
  }

  /** `hash_mem_value` for each address in turn. */
  method Feed(state: State, mem: Memory, log: seq<Word>)
    requires state.Valid() && state.fed == []
    modifies state, state.mem32
    ensures state.Valid() && state.start == old(state.start) && state.fed == BytesAt(mem, log)
  {
    hide Hash, Absorb, Rest;
    assert BytesAt(mem, log)[..0] == [];
    for i := 0 to |log|
      invariant state.Valid() && state.start == old(state.start) && state.fed == BytesAt(mem, log)[..i]
    {
      state.Update([mem(log[i])]);
      assert BytesAt(mem, log)[..i + 1] == BytesAt(mem, log)[..i] + [mem(log[i])];
    }
    assert BytesAt(mem, log)[..|log|] == BytesAt(mem, log);
  }

  /** `hash_mem`, from the given initial lanes: every member's byte is fed on its own, lowest address first. */
  method HashMem(s: TrieSet.Node, mem: Memory, start: Lanes) returns (h: Word)
    requires s.Valid() && s.offset == TrieSet.MAX_OFFSET
    ensures forall a: seq<Word> :: Enumerates(a, s.Elems()) ==> h == Hash(start, BytesAt(mem, a)) as int
    ensures h == HashOf(start, s.Elems(), mem)
  {
    hide Hash, Absorb, Rest, BytesAt, TrieSet.Node.Valid, TrieSet.Ascending, TrieSet.ToSet;
    var state := new State(start);
    var n, log := s.Foreach();
    AscendingUnique(log, Sorted(s.Elems()));
    Feed(state, mem, log);
    var digest := state.Digest();
    h := digest as int;
    forall a: seq<Word> | Enumerates(a, s.Elems())
      ensures h == Hash(start, BytesAt(mem, a)) as int
    {
      AscendingUnique(a, log);
    }
  }

  /** How far above base x lies, addresses wrapping at 2^32. */
  function Offset(x: Word, base: Word): nat {
    (x - base) % TWO_TO_THE_32
  }

  lemma OffsetIs(x: Word, base: Word, i: nat)
    ensures x == (base + i) % TWO_TO_THE_32 <==> Offset(x, base) == i % TWO_TO_THE_32
    ensures Offset(x, base) < i + 1 <==> Offset(x, base) < i || Offset(x, base) == i % TWO_TO_THE_32
  {
  }

  /** `add_mem`. */
  method AddMem(s: TrieSet.Node, base: Word, size: nat)
    requires s.Valid() && s.offset == TrieSet.MAX_OFFSET
    modifies s.Repr
    ensures s.Valid() && fresh(s.Repr - old(s.Repr)) && s.offset == old(s.offset)
    ensures forall x: Word :: x in s.Elems() <==> x in old(s.Elems()) || Offset(x, base) < size
  {
    for i := 0 to size
      invariant s.Valid() && fresh(s.Repr - old(s.Repr)) && s.offset == old(s.offset)
      invariant forall x: Word :: x in s.Elems() <==> x in old(s.Elems()) || Offset(x, base) < i
    {
      ghost var before := s.Members;
      var v: Word := (base + i) % TWO_TO_THE_32;
      var present := s.Insert(v);
      TrieSet.ElemsAlgebra(before, before, v);
      hide Offset;
      forall x: Word
        ensures x in s.Elems() <==> x in old(s.Elems()) || Offset(x, base) < i + 1
      {
        OffsetIs(x, base, i);
      }
    }
  }
}
