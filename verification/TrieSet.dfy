/** set.c: a radix trie over 32-bit values, five bits a level. */
module TrieSet {
  import opened Arithmetic
  import opened Words

  const MAX_OFFSET: nat := 30

  predicate Level(o: nat) {
    o <= MAX_OFFSET && o % 5 == 0
  }

  /** 2 to the power o. */
  function Shift(o: nat): nat
    requires Level(o)
  {
    if o == 0 then 1
    else if o == 5 then 0x20
    else if o == 10 then 0x400
    else if o == 15 then 0x8000
    else if o == 20 then 0x10_0000
    else if o == 25 then 0x200_0000
    else 0x4000_0000
  }

  /** `(v >> o) & 0x1F`. */
  function Index(v: nat, o: nat): (i: nat)
    requires Level(o)
    ensures i < 32
  {
    (v / Shift(o)) % 32
  }

  /** Only the first four children of a root are ever used: a value has 32 bits. */
  lemma IndexBound(v: Word, o: nat)
    requires Level(o)
    ensures Index(v, o) < if o == MAX_OFFSET then 4 else 32
  {
  }

  /** x and v take the same path from a node at offset o downwards. */
  predicate SamePath(x: nat, v: nat, o: nat)
    requires Level(o)
  {
    Index(x, o) == Index(v, o) && (o == 0 || SamePath(x, v, o - 5))
  }

  lemma NestedDivision(x: nat, s: nat)
    requires s > 0
    ensures x / (32 * s) == (x / s) / 32
    ensures x % (32 * s) == ((x / s) % 32) * s + x % s
  {
    var q, r := x / s, x % s;
    var a, b := q / 32, q % 32;
    assert x == s * q + r;
    assert s * (32 * a + b) == (32 * s) * a + b * s;
    MulMonotone(s, b, 31);
    MulMonotone(s, 0, b);
    DivUnique(x, 32 * s, a, b * s + r);
  }

  lemma DigitSplit(x: nat, o: nat)
    requires Level(o)
    ensures o > 0 ==> Shift(o) == 32 * Shift(o - 5)
    ensures x % (32 * Shift(o)) == Index(x, o) * Shift(o) + x % Shift(o)
    ensures x / (32 * Shift(o)) == (x / Shift(o)) / 32
  {
    NestedDivision(x, Shift(o));
  }

  lemma {:induction false} SamePathResidue(x: nat, v: nat, o: nat)
    requires Level(o)
    ensures SamePath(x, v, o) ==> x % (32 * Shift(o)) == v % (32 * Shift(o))
    ensures x == v ==> SamePath(x, v, o)
  {
    DigitSplit(x, o);
    DigitSplit(v, o);
    if o > 0 {
      SamePathResidue(x, v, o - 5);
    }
  }

  lemma SamePathIsEqual(x: Word, v: Word)
    ensures SamePath(x, v, MAX_OFFSET) <==> x == v
  {
    SamePathResidue(x, v, MAX_OFFSET);
  }

  ghost predicate Ascending(s: seq<nat>) {
    forall i, j :: 0 <= i < j < |s| ==> s[i] < s[j]
  }

  /** All numbers that a node at offset o cannot tell from v. */
  ghost function Path(v: nat, o: nat): iset<nat>
    requires Level(o)
  {
    iset x: nat | SamePath(x, v, o)
  }

  /** The 32-bit values among m. */
  ghost function ElemsOf(m: iset<nat>): set<int> {
    set v: int | 0 <= v < TWO_TO_THE_32 && Contains(m, v)
  }

  ghost predicate Contains(m: iset<nat>, v: int) {
    v in m
  }

  /** At the root the contents are plain sets of 32-bit values: inserting a path adds exactly its value. */
  lemma ElemsAlgebra(a: iset<nat>, b: iset<nat>, v: Word)
    ensures ElemsOf(a + Path(v, MAX_OFFSET)) == ElemsOf(a) + {v}
    ensures ElemsOf(a + b) == ElemsOf(a) + ElemsOf(b)
    ensures ElemsOf(a * b) == ElemsOf(a) * ElemsOf(b)
    ensures v in a <==> v in ElemsOf(a)
  {
    forall x: Word
      ensures x in Path(v, MAX_OFFSET) <==> x == v
    {
      SamePathIsEqual(x, v);
    }
    hide SamePath, Index, Shift, Path;
    assert ElemsOf(a + Path(v, MAX_OFFSET)) == ElemsOf(a) + {v};
  }

  /** What a node with this mask contains, when its i-th child contains subs[i]. */
  ghost predicate Marks(members: iset<nat>, mask: set<nat>, o: nat, subs: seq<iset<nat>>)
    requires Level(o) && |subs| == 32
  {
    forall x: nat :: x in members <==> Index(x, o) in mask && (o == 0 || x in subs[Index(x, o)])
  }

  lemma InsertMarks(members: iset<nat>, mask: set<nat>, o: nat, subs: seq<iset<nat>>, v: nat, below: iset<nat>)
    requires Level(o) && |subs| == 32 && Marks(members, mask, o, subs)
    requires o > 0 ==> below == (if Index(v, o) in mask then subs[Index(v, o)] else iset{}) + Path(v, o - 5)
    ensures Marks(members + Path(v, o), mask + {Index(v, o)}, o, subs[Index(v, o) := below])
  {
    hide Index, Shift;
  }

  lemma MarksAt(members: iset<nat>, mask: set<nat>, o: nat, subs: seq<iset<nat>>, v: nat)
    requires Level(o) && |subs| == 32 && Marks(members, mask, o, subs)
    ensures v in members <==> Index(v, o) in mask && (o == 0 || v in subs[Index(v, o)])
  {
    hide Index, Shift;
  }

  lemma CopyMarks(members: iset<nat>, mask: set<nat>, o: nat, from: seq<iset<nat>>, subs: seq<iset<nat>>)
    requires Level(o) && |from| == |subs| == 32 && Marks(members, mask, o, from)
    requires o > 0 ==> forall i :: i in mask && i < 32 ==> subs[i] == from[i]
    ensures Marks(members, mask, o, subs)
  {
    hide Index, Shift;
  }

  lemma UnionMarks(a: iset<nat>, aMask: set<nat>, aSubs: seq<iset<nat>>, b: iset<nat>, bMask: set<nat>,
          bSubs: seq<iset<nat>>, o: nat, subs: seq<iset<nat>>)
    requires Level(o) && |aSubs| == |bSubs| == |subs| == 32 && Marks(a, aMask, o, aSubs) && Marks(b, bMask, o, bSubs)
    requires o > 0 ==> forall i :: i in aMask + bMask && i < 32 ==>
      subs[i] == (if i in aMask then aSubs[i] else iset{}) + (if i in bMask then bSubs[i] else iset{})
    ensures Marks(a + b, aMask + bMask, o, subs)
  {
    hide Index, Shift;
  }

  lemma IntersectionMarks(a: iset<nat>, aMask: set<nat>, aSubs: seq<iset<nat>>, b: iset<nat>, bMask: set<nat>,
          bSubs: seq<iset<nat>>, o: nat, subs: seq<iset<nat>>)
    requires Level(o) && |aSubs| == |bSubs| == |subs| == 32 && Marks(a, aMask, o, aSubs) && Marks(b, bMask, o, bSubs)
    requires o > 0 ==> forall i :: i in aMask * bMask && i < 32 ==> subs[i] == aSubs[i] * bSubs[i]
    ensures Marks(a * b, aMask * bMask, o, subs)
  {
    hide Index, Shift;
  }

  /** The calls made so far by a foreach over a node at offset o: the members below the prefix whose digit is less than k. */
  ghost predicate Visited(log: seq<nat>, members: iset<nat>, o: nat, prefix: nat, k: nat)
    requires Level(o)
  {
    && Ascending(log)
    && forall x: nat :: x in log <==> x / (32 * Shift(o)) == prefix && Index(x, o) < k && x in members
  }

  lemma DigitOfPrefix(x: nat, o: nat, prefix: nat, i: nat)
    requires Level(o) && i < 32
    ensures x / Shift(o) == prefix * 32 + i <==> x / (32 * Shift(o)) == prefix && Index(x, o) == i
  {
    DigitSplit(x, o);
  }

  lemma SmallerQuotient(x: nat, y: nat, s: nat)
    requires s > 0 && x / s < y / s
    ensures x < y
  {
    MulMonotone(s, x / s + 1, y / s);
  }

  /** What one iteration of the foreach loop adds. */
  lemma VisitStep(log: seq<nat>, sub: seq<nat>, members: iset<nat>, mask: set<nat>, subs: seq<iset<nat>>, o: nat,
          prefix: nat, i: nat)
    requires Level(o) && |subs| == 32 && Marks(members, mask, o, subs) && i < 32
    requires Visited(log, members, o, prefix, i)
    requires i !in mask ==> sub == []
    requires i in mask ==> if o > 0 then Visited(sub, subs[i], o - 5, prefix * 32 + i, 32) else sub == [prefix * 32 + i]
    ensures Visited(log + sub, members, o, prefix, i + 1)
  {
    forall x: nat
      ensures x in sub <==> x / (32 * Shift(o)) == prefix && Index(x, o) == i && x in members
    {
      DigitOfPrefix(x, o, prefix, i);
      if o > 0 {
        DigitSplit(x, o);
      } else {
        assert Shift(o) == 1 && x / 1 == x;
      }
      hide Index, Shift;
    }
    hide Index, Shift;
    forall k, l | 0 <= k < |log| && 0 <= l < |sub|
      ensures log[k] < sub[l]
    {
      var x, y := log[k], sub[l];
      assert x in log && y in sub;
      DigitOfPrefix(x, o, prefix, Index(x, o));
      DigitOfPrefix(y, o, prefix, i);
      ShiftPositive(o);
      SmallerQuotient(x, y, Shift(o));
    }
  }

  lemma ShiftPositive(o: nat)
    requires Level(o)
    ensures Shift(o) > 0
  {
  }

  function ToSet(s: seq<int>): set<int> {
    set x | x in s
  }

  lemma {:induction false} AscendingCardinality(s: seq<nat>)
    requires Ascending(s)
    ensures |ToSet(s)| == |s|
  {
    if s != [] {
      var init, last := s[..|s| - 1], s[|s| - 1];
      AscendingCardinality(init);
      assert last !in init;
      assert s == init + [last];
      assert ToSet(s) == ToSet(init) + {last as int};
    }
  }

  class Node {
    var mask: set<nat>  // the positions of the one bits of the 32-bit mask
    var offset: nat
    var children: seq<Node?>
    ghost var Repr: set<Node>
    ghost var Members: iset<nat>      // the numbers whose path is marked all the way down
    ghost var Below: seq<iset<nat>>   // what each child contains
    ghost var Placed: set<nat>        // where the children of the next lower level are

    /** Children, wherever there are any, are valid tries that share nothing. Those in Placed are of the next lower
        level; others have been left over from before the node was copied over. */
    ghost predicate Owns()
      reads this, Repr
      decreases Repr, 0
    {
      && this in Repr && Level(offset) && |children| == |Below| == 32
      && (forall i :: 0 <= i < 32 && children[i] != null ==>
            && children[i] in Repr && children[i].Repr <= Repr && this !in children[i].Repr
            && children[i].Valid() && Below[i] == children[i].Members)
      && (forall i :: i in Placed ==> i < 32 && children[i] != null && offset > 0 && children[i].offset == offset - 5)
      && (forall i, j :: 0 <= i < j < 32 && children[i] != null && children[j] != null ==>
            children[i].Repr !! children[j].Repr)
    }

    /** Mask bits of an inner node have a child (cleared ones may still have one), and a root holds 32-bit values only. */
    ghost predicate Valid()
      reads this, Repr
      ensures Valid() ==> this in Repr
      decreases Repr, 1
    {
      && Owns()
      && (forall i :: i in mask ==> i < if offset == MAX_OFFSET then 4 else 32)
      && (offset > 0 ==> mask <= Placed)
      && Marks(Members, mask, offset, Below)
    }

    /** What the i-th child contributes: nothing when its mask bit is cleared. */
    ghost function At(i: nat): iset<nat>
      requires |Below| == 32 && i < 32
      reads this
    {
      if i in mask then Below[i] else iset{}
    }

    /** The 32-bit values in the set. */
    ghost function Elems(): set<int>
      reads this
    {
      ElemsOf(Members)
    }

    /** `set_alloc_offset`. */
    constructor (offset: nat)
      requires Level(offset)
      ensures Valid() && fresh(Repr) && this.offset == offset && Members == iset{}
    {
      mask := {};
      this.offset := offset;
      children := seq(32, i => null);
      Repr := {this};
      Members, Below, Placed := iset{}, seq(32, i => iset{}), {};
    }

    /** The mask and the ghost content are not what Owns is about, nor is the level if no child is placed in it. */
    twostate lemma MaskChanged()
      requires old(Owns()) && unchanged(this`children, this`Repr, this`Below)
      requires unchanged(this`offset, this`Placed) || (Level(offset) && Placed == {})
      requires forall o: Node :: o in old(Repr) && o != this ==> unchanged(o)
      ensures Owns()
    {
    }

    /** Changing one child, which may take in new nodes, leaves the others as they were. */
    twostate lemma ChildChanged(index: nat)
      requires index in old(Placed) && old(Owns()) && children == old(children) && offset == old(offset) && Placed == old(Placed)
      requires children[index].Valid() && children[index].offset == offset - 5
      requires fresh(children[index].Repr - old(children[index].Repr)) && Repr == old(Repr) + children[index].Repr
      requires Below == old(Below)[index := children[index].Members]
      requires forall o: Node :: o in old(Repr) && o !in old(children[index].Repr) && o != this ==> unchanged(o)
      ensures Owns()
    {
      forall j | 0 <= j < 32 && j != index && children[j] != null
        ensures children[j].Valid() && children[j].Repr == old(children[j].Repr) && unchanged(children[j])
        ensures children[j].Repr !! children[index].Repr
      {
        assert old(children[j].Repr) !! old(children[index].Repr);
      }
    }

    /** `s->children[index] = set_alloc_offset(s->offset - 5)`; a child that was there before is dropped. */
    method NewChild(index: nat)
      requires Owns() && index < 32 && offset > 0
      modifies this`children, this`Repr, this`Below, this`Placed
      ensures Owns() && fresh(Repr - old(Repr)) && old(Repr) <= Repr && Placed == old(Placed) + {index}
      ensures children[index] != null && fresh(children[index]) && fresh(children[index].Repr)
      ensures Below == old(Below)[index := iset{}]
      ensures children == old(children)[index := children[index]]
    {
      var c := new Node(offset - 5);
      children := children[index := c];
      Repr := Repr + c.Repr;
      Below := Below[index := iset{}];
      Placed := Placed + {index};
    }

    /** `return set_insert(s->children[index], v)`. */
    method InsertBelow(index: nat, v: Word) returns (present: bool)
      requires Owns() && index in Placed
      modifies Repr
      ensures Owns() && fresh(Repr - old(Repr)) && old(Repr) <= Repr && Placed == old(Placed)
      ensures mask == old(mask) && Members == old(Members) && offset == old(offset) && children == old(children)
      ensures Level(offset - 5) && Below == old(Below)[index := old(Below)[index] + Path(v, offset - 5)]
      ensures present <==> v in old(Below)[index]
      decreases offset, 0
    {
      hide Index, Shift, Marks;
      var child := children[index];
      assert child in Repr && child.Repr <= Repr && this !in child.Repr && child.Valid() && child.offset == offset - 5;
      assert |Below| == 32 && Below[index] == child.Members;
      hide Owns;
      present := child.Insert(v);
      Repr := Repr + child.Repr;
      Below := Below[index := child.Members];
      ChildChanged(index);
    }

    /** The part of `set_insert` for an inner node: make the child if its bit was not set, and recurse. */
    method InsertInner(index: nat, v: Word, present: bool) returns (found: bool)
      requires Owns() && index < 32 && offset > 0 && (present ==> index in Placed)
      modifies Repr
      ensures Owns() && fresh(Repr - old(Repr)) && old(Repr) <= Repr && Placed == old(Placed) + {index}
      ensures mask == old(mask) && Members == old(Members) && offset == old(offset)
      ensures |children| == 32 && children == old(children)[index := children[index]] && children[index] != null
      ensures Level(offset - 5)
      ensures Below == old(Below)[index := (if present then old(Below)[index] else iset{}) + Path(v, offset - 5)]
      ensures found <==> present && v in old(Below)[index]
      decreases offset, 1
    {
      assert |children| == |Below| == 32;
      hide Index, Shift, Marks, Owns, Path;
      if !present {
        NewChild(index);
      }
      found := InsertBelow(index, v);
    }

    lemma Widths()
      requires Owns()
      ensures Level(offset) && |Below| == |children| == 32
    {
    }

    /** Returns whether v was there already. */
    method Insert(v: Word) returns (present: bool)
      requires Valid()
      modifies Repr
      ensures Valid() && fresh(Repr - old(Repr)) && offset == old(offset)
      ensures Level(offset) && Members == old(Members) + Path(v, offset)
      ensures present <==> v in old(Members)
      decreases offset, 2
    {
      hide Index, Shift, Owns, Path, Marks;
      Widths();
      IndexBound(v, offset);
      MarksAt(Members, mask, offset, Below, v);
      var index := Index(v, offset);
      present := index in mask;
      mask := mask + {index};
      Members := Members + Path(v, offset);
      MaskChanged();
      if offset > 0 {
        present := InsertInner(index, v, present);
      }
      assert Below == old(Below)[index := Below[index]];
      InsertMarks(old(Members), old(mask), offset, old(Below), v, Below[index]);
    }

    /** Returns 1 or 0. */
    method Lookup(v: Word) returns (r: nat)
      requires Valid()
      ensures r == if v in Members then 1 else 0
      decreases Repr
    {
      assert Owns();
      var index := Index(v, offset);
      if index !in mask { return 0; }
      if offset == 0 { return 1; }
      r := children[index].Lookup(v);
    }

    /** The i-th children of two tries of the same level. */
    ghost predicate Paired(x: Node, i: nat)
      reads this, Repr, x, x.Repr
    {
      && Owns() && x.Valid() && x.Owns() && offset == x.offset > 0 && Repr !! x.Repr
      && i < 32 && i in Placed && i in x.mask
    }

    method CopyBelow(i: nat, src: Node)
      requires Paired(src, i)
      modifies this`Repr, this`Below, children[i]
      ensures Owns() && fresh(Repr - old(Repr)) && old(Repr) <= Repr
      ensures Below == old(Below[i := src.Below[i]])
      decreases src.Repr, 0
    {
      hide Index, Shift, Marks;
      var child := children[i];
      assert child in Repr && child.Repr <= Repr && this !in child.Repr && child.Valid() && child.offset == offset - 5;
      assert src.Owns();
      child.CopyFrom(src.children[i]);
      Repr := Repr + child.Repr;
      Below := Below[i := child.Members];
      ChildChanged(i);
    }

    method CopyChildren(src: Node)
      requires Owns() && src.Valid() && offset == src.offset > 0 && Repr !! src.Repr
      modifies this`Repr, this`Below, this`children, this`Placed
      ensures Owns() && fresh(Repr - old(Repr)) && old(Repr) <= Repr
      ensures src.Owns() && forall j :: 0 <= j < 32 && j in src.mask ==> j in Placed && Below[j] == src.Below[j]
      decreases src.Repr, 1
    {
      assert src.Owns() && |src.Below| == |src.children| == |children| == |Below| == 32;
      hide Valid, Owns, Index, Shift, Marks;
      for i := 0 to 32
        invariant Owns() && src.Valid() && src.Owns() && Repr !! src.Repr && |Below| == |children| == 32
        invariant fresh(Repr - old(Repr)) && old(Repr) <= Repr
        invariant forall j :: 0 <= j < i && j in src.mask ==> j in Placed && Below[j] == src.Below[j]
      {
        if i in src.mask {
          NewChild(i);
          CopyBelow(i, src);
        }
      }
    }

    /** `set_copy(this, src)`. The destination may be of any level: it takes that of the source. */
    method CopyFrom(src: Node)
      requires Owns() && src.Valid() && Repr !! src.Repr
      modifies this
      ensures Valid() && fresh(Repr - old(Repr)) && old(Repr) <= Repr && offset == src.offset
      ensures Members == src.Members
      decreases src.Repr, 2
    {
      hide Index, Shift;
      assert src.Owns();
      offset := src.offset;
      mask := src.mask;
      Members, Placed := src.Members, {};
      hide Owns, Marks;
      MaskChanged();
      if src.offset > 0 {
        CopyChildren(src);
      }
      CopyMarks(src.Members, mask, offset, src.Below, Below);
    }

    method UnionBelow(i: nat, x: Node, y: Node)
      requires Paired(x, i) && Paired(y, i)
      modifies this`Repr, this`Below, children[i]
      ensures Owns() && fresh(Repr - old(Repr)) && old(Repr) <= Repr
      ensures Below == old(Below[i := x.Below[i] + y.Below[i]])
      decreases x.Repr, 0
    {
      hide Index, Shift, Marks;
      var child := children[i];
      assert child in Repr && child.Repr <= Repr && this !in child.Repr && child.Valid() && child.offset == offset - 5;
      child.UnionOf(x.children[i], y.children[i]);
      Repr := Repr + child.Repr;
      Below := Below[i := child.Members];
      ChildChanged(i);
    }

    method UnionChild(i: nat, x: Node, y: Node)
      requires Owns() && x.Valid() && x.Owns() && y.Valid() && y.Owns() && i < 32 && i in x.mask + y.mask
      requires offset == x.offset == y.offset > 0 && Repr !! x.Repr && Repr !! y.Repr
      modifies this`Repr, this`Below, this`children, this`Placed
      ensures Owns() && fresh(Repr - old(Repr)) && old(Repr) <= Repr && Placed == old(Placed) + {i}
      ensures Below == old(Below[i := x.At(i) + y.At(i)])
      decreases x.Repr, 1
    {
      assert |Below| == 32 && x.At(i) + y.At(i) == (if i !in x.mask then y.Below[i] else if i !in y.mask then x.Below[i]
                                                    else x.Below[i] + y.Below[i]);
      hide Index, Shift, Marks, Owns, Valid;
      NewChild(i);
      if i in x.mask * y.mask {
        UnionBelow(i, x, y);
      } else if i in x.mask {
        CopyBelow(i, x);
      } else {
        CopyBelow(i, y);
      }
    }

    method UnionChildren(x: Node, y: Node)
      requires Owns() && x.Valid() && y.Valid() && offset == x.offset == y.offset > 0 && Repr !! x.Repr && Repr !! y.Repr
      modifies this`Repr, this`Below, this`children, this`Placed
      ensures Owns() && fresh(Repr - old(Repr)) && old(Repr) <= Repr && x.Owns() && y.Owns()
      ensures forall j :: 0 <= j < 32 && j in x.mask + y.mask ==> j in Placed && Below[j] == x.At(j) + y.At(j)
      decreases x.Repr, 2
    {
      assert x.Owns() && y.Owns() && |x.Below| == |y.Below| == |children| == |Below| == 32;
      hide Valid, Owns, Index, Shift, Marks, At;
      var atLeastOnePresent := x.mask + y.mask;
      for i := 0 to 32
        invariant Owns() && x.Valid() && x.Owns() && y.Valid() && y.Owns() && |Below| == |children| == 32
        invariant Repr !! x.Repr && Repr !! y.Repr && fresh(Repr - old(Repr)) && old(Repr) <= Repr
        invariant forall j :: 0 <= j < i && j in x.mask + y.mask ==> j in Placed && Below[j] == x.At(j) + y.At(j)
      {
        if i in atLeastOnePresent {
          UnionChild(i, x, y);
        }
      }
    }

    /** `set_union(this, x, y)`: what this held before is dropped. */
    method UnionOf(x: Node, y: Node)
      requires Owns() && x.Valid() && y.Valid() && offset == x.offset == y.offset && Repr !! x.Repr && Repr !! y.Repr
      modifies this
      ensures Valid() && fresh(Repr - old(Repr)) && old(Repr) <= Repr && offset == old(offset)
      ensures Members == x.Members + y.Members
      decreases x.Repr, 3
    {
      hide Index, Shift;
      assert x.Owns() && y.Owns();
      mask := x.mask + y.mask;
      Members := x.Members + y.Members;
      hide Owns, Marks;
      MaskChanged();
      if offset > 0 {
        UnionChildren(x, y);
      }
      UnionMarks(x.Members, x.mask, x.Below, y.Members, y.mask, y.Below, offset, Below);
    }

    method UnionInplaceBelow(i: nat, x: Node)
      requires Paired(x, i)
      modifies Repr
      ensures Owns() && fresh(Repr - old(Repr)) && old(Repr) <= Repr && Placed == old(Placed)
      ensures mask == old(mask) && Members == old(Members) && offset == old(offset)
      ensures Below == old(Below[i := Below[i] + x.Below[i]])
      decreases x.Repr, 0
    {
      hide Index, Shift, Marks;
      var child := children[i];
      assert child in Repr && child.Repr <= Repr && this !in child.Repr && child.Valid() && child.offset == offset - 5;
      child.UnionInplace(x.children[i]);
      Repr := Repr + child.Repr;
      Below := Below[i := child.Members];
      ChildChanged(i);
    }

    method UnionInplaceChild(i: nat, x: Node, both: bool)
      requires Owns() && x.Valid() && x.Owns() && offset == x.offset > 0 && Repr !! x.Repr
      requires i < 32 && i in x.mask && (both ==> i in Placed)
      modifies Repr
      ensures Owns() && fresh(Repr - old(Repr)) && old(Repr) <= Repr && Placed == old(Placed) + {i}
      ensures mask == old(mask) && Members == old(Members) && offset == old(offset)
      ensures Below == old(Below[i := (if both then Below[i] else iset{}) + x.Below[i]])
      decreases x.Repr, 1
    {
      assert |Below| == |x.Below| == 32;
      hide Valid, Owns, Index, Shift, Marks;
      if both {
        UnionInplaceBelow(i, x);
      } else {
        NewChild(i);
        CopyBelow(i, x);
        assert iset{} + x.Below[i] == x.Below[i];
      }
    }

    method UnionInplaceChildren(x: Node, bothPresent: set<nat>)
      requires Owns() && x.Valid() && offset == x.offset > 0 && Repr !! x.Repr
      requires bothPresent <= x.mask && bothPresent <= Placed
      modifies Repr
      ensures Owns() && fresh(Repr - old(Repr)) && old(Repr) <= Repr && x.Owns()
      ensures mask == old(mask) && Members == old(Members) && offset == old(offset)
      ensures forall j :: 0 <= j < 32 && j in x.mask ==>
        j in Placed && Below[j] == (if j in bothPresent then old(Below)[j] else iset{}) + x.Below[j]
      ensures forall j :: 0 <= j < 32 && j !in x.mask ==> Below[j] == old(Below)[j]
      ensures old(Placed) <= Placed
      decreases x.Repr, 2
    {
      assert x.Owns() && |x.Below| == |children| == |Below| == 32;
      hide Valid, Owns, Index, Shift, Marks;
      for i := 0 to 32
        invariant Owns() && x.Valid() && x.Owns() && |Below| == |children| == 32
        invariant Repr !! x.Repr && fresh(Repr - old(Repr)) && old(Repr) <= Repr
        invariant mask == old(mask) && Members == old(Members) && offset == old(offset)
        invariant forall j :: 0 <= j < i && j in x.mask ==>
          j in Placed && Below[j] == (if j in bothPresent then old(Below)[j] else iset{}) + x.Below[j]
        invariant forall j :: 0 <= j < 32 && (j >= i || j !in x.mask) ==> Below[j] == old(Below)[j]
        invariant old(Placed) <= Placed
      {
        if i in x.mask {
          UnionInplaceChild(i, x, i in bothPresent);
        }
      }
    }

    /** `set_union_inplace(this, x)`. */
    method UnionInplace(x: Node)
      requires Valid() && x.Valid() && offset == x.offset && Repr !! x.Repr
      modifies Repr
      ensures Valid() && fresh(Repr - old(Repr)) && offset == old(offset)
      ensures Members == old(Members) + x.Members
      decreases x.Repr, 3
    {
      hide Index, Shift;
      assert Owns() && x.Owns();
      var bothPresent := mask * x.mask;
      mask := mask + x.mask;
      Members := Members + x.Members;
      hide Owns, Marks;
      MaskChanged();
      if offset > 0 {
        UnionInplaceChildren(x, bothPresent);
      }
      UnionMarks(old(Members), old(mask), old(Below), x.Members, x.mask, x.Below, offset, Below);
    }

    method IntersectionBelow(i: nat, x: Node, y: Node)
      requires Paired(x, i) && Paired(y, i)
      modifies this`Repr, this`Below, children[i]
      ensures Owns() && fresh(Repr - old(Repr)) && old(Repr) <= Repr
      ensures Below == old(Below[i := x.Below[i] * y.Below[i]])
      decreases x.Repr, 0
    {
      hide Index, Shift, Marks;
      var child := children[i];
      assert child in Repr && child.Repr <= Repr && this !in child.Repr && child.Valid() && child.offset == offset - 5;
      child.IntersectionOf(x.children[i], y.children[i]);
      Repr := Repr + child.Repr;
      Below := Below[i := child.Members];
      ChildChanged(i);
    }

    method IntersectionChildren(x: Node, y: Node)
      requires Owns() && x.Valid() && y.Valid() && offset == x.offset == y.offset > 0 && Repr !! x.Repr && Repr !! y.Repr
      modifies this`Repr, this`Below, this`children, this`Placed
      ensures Owns() && fresh(Repr - old(Repr)) && old(Repr) <= Repr && x.Owns() && y.Owns()
      ensures forall j :: 0 <= j < 32 && j in x.mask * y.mask ==> j in Placed && Below[j] == x.Below[j] * y.Below[j]
      decreases x.Repr, 1
    {
      assert x.Owns() && y.Owns() && |x.Below| == |y.Below| == |children| == |Below| == 32;
      hide Valid, Owns, Index, Shift, Marks;
      var bothPresent := x.mask * y.mask;
      for i := 0 to 32
        invariant Owns() && x.Valid() && x.Owns() && y.Valid() && y.Owns() && |Below| == |children| == 32
        invariant Repr !! x.Repr && Repr !! y.Repr && fresh(Repr - old(Repr)) && old(Repr) <= Repr
        invariant forall j :: 0 <= j < i && j in x.mask * y.mask ==> j in Placed && Below[j] == x.Below[j] * y.Below[j]
      {
        if i in bothPresent {
          NewChild(i);
          IntersectionBelow(i, x, y);
        }
      }
    }

    /** `set_intersection(this, x, y)`: what this held before is dropped. */
    method IntersectionOf(x: Node, y: Node)
      requires Owns() && x.Valid() && y.Valid() && offset == x.offset == y.offset && Repr !! x.Repr && Repr !! y.Repr
      modifies this
      ensures Valid() && fresh(Repr - old(Repr)) && old(Repr) <= Repr && offset == old(offset)
      ensures Members == x.Members * y.Members
      decreases x.Repr, 2
    {
      hide Index, Shift;
      assert x.Owns() && y.Owns();
      mask := x.mask * y.mask;
      Members := x.Members * y.Members;
      hide Owns, Marks;
      MaskChanged();
      if offset > 0 {
        IntersectionChildren(x, y);
      }
      IntersectionMarks(x.Members, x.mask, x.Below, y.Members, y.mask, y.Below, offset, Below);
    }

    /** `set_free(y->children[i]); y->children[i] = NULL`. */
    method DropChild(i: nat)
      requires Owns() && i < 32
      modifies this`children, this`Placed
      ensures Owns() && children == old(children)[i := null] && Placed == old(Placed) - {i}
    {
      children := children[i := null];
      Placed := Placed - {i};
    }

    method IntersectionInplaceBelow(i: nat, x: Node)
      requires Paired(x, i)
      modifies Repr
      ensures Owns() && fresh(Repr - old(Repr)) && old(Repr) <= Repr && Placed == old(Placed)
      ensures mask == old(mask) && Members == old(Members) && offset == old(offset)
      ensures Below == old(Below[i := Below[i] * x.Below[i]])
      decreases x.Repr, 0
    {
      hide Index, Shift, Marks;
      var child := children[i];
      assert child in Repr && child.Repr <= Repr && this !in child.Repr && child.Valid() && child.offset == offset - 5;
      child.IntersectionInplace(x.children[i]);
      Repr := Repr + child.Repr;
      Below := Below[i := child.Members];
      ChildChanged(i);
    }

    method IntersectionInplaceChildren(x: Node, onlyY: set<nat>, onlyX: set<nat>, bothPresent: set<nat>)
      requires Owns() && x.Valid() && offset == x.offset > 0 && Repr !! x.Repr
      requires onlyX <= x.mask && bothPresent <= x.mask && bothPresent !! onlyY && bothPresent !! onlyX
      requires bothPresent <= Placed
      modifies Repr
      ensures Owns() && fresh(Repr - old(Repr)) && old(Repr) <= Repr && x.Owns()
      ensures mask == old(mask) && Members == old(Members) && offset == old(offset)
      ensures forall j :: 0 <= j < 32 && j in bothPresent ==> j in Placed && Below[j] == old(Below)[j] * x.Below[j]
      decreases x.Repr, 1
    {
      assert x.Owns() && |x.Below| == |children| == |Below| == 32;
      hide Valid, Owns, Index, Shift, Marks;
      for i := 0 to 32
        invariant Owns() && x.Valid() && x.Owns() && |Below| == |children| == 32
        invariant Repr !! x.Repr && fresh(Repr - old(Repr)) && old(Repr) <= Repr
        invariant mask == old(mask) && Members == old(Members) && offset == old(offset)
        invariant forall j :: 0 <= j < i && j in bothPresent ==> j in Placed && Below[j] == old(Below)[j] * x.Below[j]
        invariant forall j :: i <= j < 32 && j in bothPresent ==> j in Placed && Below[j] == old(Below)[j]
      {
        if i in onlyY {
          DropChild(i);
        } else if i in onlyX {
          NewChild(i);
          CopyBelow(i, x);
        } else if i in bothPresent {
          IntersectionInplaceBelow(i, x);
        }
      }
    }

    /** `set_intersection_inplace(this, x)`: leaves copies of x's children under cleared mask bits. */
    method IntersectionInplace(x: Node)
      requires Valid() && x.Valid() && offset == x.offset && Repr !! x.Repr
      modifies Repr
      ensures Valid() && fresh(Repr - old(Repr)) && offset == old(offset)
      ensures Members == old(Members) * x.Members
      decreases x.Repr, 2
    {
      hide Index, Shift;
      assert Owns() && x.Owns();
      var bothPresent := mask * x.mask;
      var onlyY := mask - x.mask;
      var onlyX := x.mask - mask;
      mask := mask * x.mask;
      Members := Members * x.Members;
      hide Owns, Marks;
      MaskChanged();
      if offset > 0 {
        IntersectionInplaceChildren(x, onlyY, onlyX, bothPresent);
      }
      IntersectionMarks(old(Members), old(mask), old(Below), x.Members, x.mask, x.Below, offset, Below);
    }

    /** `set_foreach_recurse`, with the calls of the handler as a list; returns how many there were. */
    method ForeachRecurse(prefix: nat) returns (n: nat, log: seq<nat>)
      requires Valid()
      ensures n == |log| && Level(offset) && Visited(log, Members, offset, prefix, 32)
      decreases Repr
    {
      hide Index, Shift, Marks;
      assert Owns();
      n, log := 0, [];
      for i := 0 to 32
        invariant n == |log| && Visited(log, Members, offset, prefix, i)
      {
        ghost var sub: seq<nat> := [];
        if i in mask {
          if offset > 0 {
            var k, calls := children[i].ForeachRecurse(prefix * 32 + i);
            sub := calls;
            VisitStep(log, sub, Members, mask, Below, offset, prefix, i);
            n, log := n + k, log + calls;
          } else {
            sub := [prefix * 32 + i];
            VisitStep(log, sub, Members, mask, Below, offset, prefix, i);
            n, log := n + 1, log + [prefix * 32 + i];
          }
        } else {
          VisitStep(log, sub, Members, mask, Below, offset, prefix, i);
          assert log + sub == log;
        }
      }
    }

    lemma RootIsBounded(x: nat)
      requires Valid() && offset == MAX_OFFSET && x in Members && x / (32 * Shift(MAX_OFFSET)) == 0
      ensures x < TWO_TO_THE_32
    {
      assert Index(x, offset) in mask;
    }

    /** `set_foreach`: the handler sees each member once, in ascending order, and the result is the cardinality. */
    method Foreach() returns (n: nat, log: seq<Word>)
      requires Valid() && offset == MAX_OFFSET
      ensures Ascending(log) && ToSet(log) == Elems()
      ensures n == |log| == |Elems()|
    {
      var calls;
      n, calls := ForeachRecurse(0);
      forall k | 0 <= k < |calls|
        ensures calls[k] < TWO_TO_THE_32
      {
        RootIsBounded(calls[k]);
      }
      log := calls;
      AscendingCardinality(calls);
      assert forall x: int :: x in calls <==> x in Elems();
    }

    /** `set_cardinality`. */
    method Cardinality() returns (n: nat)
      requires Valid() && offset == MAX_OFFSET
      ensures n == |Elems()|
    {
      var log;
      n, log := Foreach();
    }

    /** `set_empty`. */
    method Empty() returns (e: bool)
      requires Valid() && offset == MAX_OFFSET
      ensures e <==> Elems() == {}
    {
      var n := Cardinality();
      e := n == 0;
    }
  }
}
