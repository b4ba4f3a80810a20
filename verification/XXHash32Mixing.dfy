/** xxhash.h: why the 32-bit hash tells memories apart. Every mixing step can be undone, so a change of one byte always
    shows; and published digests fix the constants. */
module XXHash32Mixing {
  import opened Words
  import opened XXHash32

  // ---- the steps can be undone ----

  lemma Rotations(x: bv32)
    ensures Rotl(x, 1) == x.RotateLeft(1) && Rotl(x, 7) == x.RotateLeft(7) && Rotl(x, 11) == x.RotateLeft(11)
    ensures Rotl(x, 12) == x.RotateLeft(12) && Rotl(x, 13) == x.RotateLeft(13)
    ensures Rotl(x, 17) == x.RotateLeft(17) && Rotl(x, 18) == x.RotateLeft(18)
  {
  }

  lemma RotateBack(x: bv32)
    ensures x.RotateLeft(1).RotateRight(1) == x && x.RotateLeft(7).RotateRight(7) == x
    ensures x.RotateLeft(11).RotateRight(11) == x && x.RotateLeft(12).RotateRight(12) == x
    ensures x.RotateLeft(13).RotateRight(13) == x && x.RotateLeft(17).RotateRight(17) == x
    ensures x.RotateLeft(18).RotateRight(18) == x
  {
  }

  function Undo13(y: bv32): bv32 {
    y ^ (y >> 13) ^ (y >> 26)
  }

  function Undo15(y: bv32): bv32 {
    y ^ (y >> 15) ^ (y >> 30)
  }

  lemma ShiftValues(x: bv32)
    ensures XorShift13(x) == x ^ (x >> 13) && XorShift15(x) == x ^ (x >> 15) && XorShift16(x) == x ^ (x >> 16)
  {
  }

  lemma ShiftInverses(x: bv32)
    ensures Undo13(x ^ (x >> 13)) == x && Undo15(x ^ (x >> 15)) == x && XorShift16(x ^ (x >> 16)) == x
  {
  }

  lemma ShiftApart(x: bv32, y: bv32)
    requires x != y
    ensures XorShift13(x) != XorShift13(y) && XorShift15(x) != XorShift15(y) && XorShift16(x) != XorShift16(y)
  {
    hide XorShift13, XorShift15, XorShift16, Undo13, Undo15;
    ShiftValues(x);
    ShiftValues(y);
    ShiftInverses(x);
    ShiftInverses(y);
  }

  const INVERSE_1: bv32 := 0x0E8B_2F51
  const INVERSE_2: bv32 := 0xB6C9_2F47
  const INVERSE_3: bv32 := 0xA89E_D915
  const INVERSE_4: bv32 := 0xA0FE_3BCF
  const INVERSE_5: bv32 := 0xAE39_8151

  lemma MulValues(x: bv32)
    ensures Mul(x, PRIME32_1) == x * 0x9E37_79B1 && Mul(x, PRIME32_2) == x * 0x85EB_CA77
    ensures Mul(x, PRIME32_3) == x * 0xC2B2_AE3D && Mul(x, PRIME32_4) == x * 0x27D4_EB2F
    ensures Mul(x, PRIME32_5) == x * 0x1656_67B1
  {
  }

  /** The multipliers are odd, so each has an inverse. */
  lemma MulInverses(x: bv32)
    ensures Mul(x * 0x9E37_79B1, INVERSE_1) == x && Mul(x * 0x85EB_CA77, INVERSE_2) == x
    ensures Mul(x * 0xC2B2_AE3D, INVERSE_3) == x && Mul(x * 0x27D4_EB2F, INVERSE_4) == x
    ensures Mul(x * 0x1656_67B1, INVERSE_5) == x
  {
  }

  lemma RotlApart(x: bv32, y: bv32)
    requires x != y
    ensures Rotl(x, 1) != Rotl(y, 1) && Rotl(x, 7) != Rotl(y, 7) && Rotl(x, 11) != Rotl(y, 11)
    ensures Rotl(x, 12) != Rotl(y, 12) && Rotl(x, 13) != Rotl(y, 13)
    ensures Rotl(x, 17) != Rotl(y, 17) && Rotl(x, 18) != Rotl(y, 18)
  {
    hide Rotl;
    Rotations(x);
    Rotations(y);
    RotateBack(x);
    RotateBack(y);
  }

  lemma MulApart(x: bv32, y: bv32)
    requires x != y
    ensures Mul(x, PRIME32_1) != Mul(y, PRIME32_1) && Mul(x, PRIME32_2) != Mul(y, PRIME32_2)
    ensures Mul(x, PRIME32_3) != Mul(y, PRIME32_3) && Mul(x, PRIME32_4) != Mul(y, PRIME32_4)
    ensures Mul(x, PRIME32_5) != Mul(y, PRIME32_5)
  {
    hide Mul;
    MulValues(x);
    MulValues(y);
    MulInverses(x);
    MulInverses(y);
  }

  lemma AddApart(x: bv32, y: bv32, z: bv32)
    requires x != y
    ensures Add(x, z) != Add(y, z) && Add(z, x) != Add(z, y)
  {
  }

  lemma AvalancheApart(h: bv32, h': bv32)
    requires h != h'
    ensures Avalanche(h) != Avalanche(h')
  {
    hide XorShift13, XorShift15, XorShift16, Mul;
    var a, a' := XorShift15(h), XorShift15(h');
    var b, b' := XorShift13(Mul(a, PRIME32_2)), XorShift13(Mul(a', PRIME32_2));
    ShiftApart(h, h');
    MulApart(a, a');
    ShiftApart(Mul(a, PRIME32_2), Mul(a', PRIME32_2));
    MulApart(b, b');
    ShiftApart(Mul(b, PRIME32_3), Mul(b', PRIME32_3));
  }

  /** A round shows a change of its lane and a change of its input. */
  lemma RoundApart(acc: bv32, acc': bv32, x: bv32, x': bv32)
    requires (acc == acc') != (x == x')
    ensures Round(acc, x) != Round(acc', x')
  {
    hide Rotl, Mul, Add;
    var y, y' := Add(acc, Mul(x, PRIME32_2)), Add(acc', Mul(x', PRIME32_2));
    if x == x' {
      AddApart(acc, acc', Mul(x, PRIME32_2));
    } else {
      MulApart(x, x');
      AddApart(Mul(x, PRIME32_2), Mul(x', PRIME32_2), acc);
    }
    RotlApart(y, y');
    MulApart(Rotl(y, 13), Rotl(y', 13));
  }

  // ---- bytes ----

  lemma NextBits(x: bv8)
    requires x < 0xFF
    ensures (x + 1) as int == x as int + 1
  {
  }

  lemma {:induction false} BitsFor(b: Byte) returns (x: bv8)
    ensures x as int == b
  {
    x := 0;
    if b > 0 {
      x := BitsFor(b - 1);
      NextBits(x);
      x := x + 1;
    }
  }

  /** A byte is its eight bits. */
  lemma ByteBits(b: Byte)
    ensures (b as bv8) as int == b
  {
    var x := BitsFor(b);
    assert (x as int) as bv8 == x;
  }

  lemma Widened(x: bv8, y: bv8)
    ensures x as bv32 == y as bv32 ==> x == y
  {
  }

  lemma BitsApart(b: Byte, b': Byte)
    requires b != b'
    ensures Bits(b) != Bits(b')
  {
    ByteBits(b);
    ByteBits(b');
    Widened(b as bv8, b' as bv8);
  }

  lemma BitsSmall(b: Byte)
    ensures Bits(b) < 0x100
  {
  }

  lemma Packed(a: bv32, b: bv32, c: bv32, d: bv32)
    requires a < 0x100 && b < 0x100 && c < 0x100 && d < 0x100
    ensures var w := a | (b << 8) | (c << 16) | (d << 24);
      w & 0xFF == a && (w >> 8) & 0xFF == b && (w >> 16) & 0xFF == c && w >> 24 == d
  {
  }

  lemma Unpacked(s: seq<Byte>)
    requires |s| == 4
    ensures var w := ReadLE32(s);
      w & 0xFF == Bits(s[0]) && (w >> 8) & 0xFF == Bits(s[1]) && (w >> 16) & 0xFF == Bits(s[2]) && w >> 24 == Bits(s[3])
  {
    hide Bits;
    BitsSmall(s[0]);
    BitsSmall(s[1]);
    BitsSmall(s[2]);
    BitsSmall(s[3]);
    Packed(Bits(s[0]), Bits(s[1]), Bits(s[2]), Bits(s[3]));
  }

  /** Different groups of four bytes read as different words. */
  lemma ReadApart(s: seq<Byte>, t: seq<Byte>)
    requires |s| == |t| == 4 && s != t
    ensures ReadLE32(s) != ReadLE32(t)
  {
    hide Bits, ReadLE32;
    Unpacked(s);
    Unpacked(t);
    var i :| 0 <= i < 4 && s[i] != t[i];
    BitsApart(s[i], t[i]);
  }

  lemma Process1Apart(h: bv32, h': bv32, b: Byte, b': Byte)
    requires (h == h') != (b == b')
    ensures Process1(h, b) != Process1(h', b')
  {
    hide Rotl, Bits, Mul, Add;
    var y, y' := Add(h, Mul(Bits(b), PRIME32_5)), Add(h', Mul(Bits(b'), PRIME32_5));
    if b == b' {
      AddApart(h, h', Mul(Bits(b), PRIME32_5));
    } else {
      BitsApart(b, b');
      MulApart(Bits(b), Bits(b'));
      AddApart(Mul(Bits(b), PRIME32_5), Mul(Bits(b'), PRIME32_5), h);
    }
    RotlApart(y, y');
    MulApart(Rotl(y, 11), Rotl(y', 11));
  }

  lemma Process4Apart(h: bv32, h': bv32, s: seq<Byte>, s': seq<Byte>)
    requires |s| == |s'| == 4 && (h == h') != (s == s')
    ensures Process4(h, s) != Process4(h', s')
  {
    hide Rotl, ReadLE32, Mul, Add;
    var y, y' := Add(h, Mul(ReadLE32(s), PRIME32_3)), Add(h', Mul(ReadLE32(s'), PRIME32_3));
    if s == s' {
      AddApart(h, h', Mul(ReadLE32(s), PRIME32_3));
    } else {
      ReadApart(s, s');
      MulApart(ReadLE32(s), ReadLE32(s'));
      AddApart(Mul(ReadLE32(s), PRIME32_3), Mul(ReadLE32(s'), PRIME32_3), h);
    }
    RotlApart(y, y');
    MulApart(Rotl(y, 17), Rotl(y', 17));
  }

  // ---- byte strings that differ in one place ----

  ghost predicate DifferAt(s: seq<Byte>, t: seq<Byte>, i: nat) {
    |s| == |t| && i < |s| && s[i] != t[i] && s[..i] == t[..i] && s[i + 1..] == t[i + 1..]
  }

  /** Cutting at k leaves the difference on one side. */
  lemma DifferCut(s: seq<Byte>, t: seq<Byte>, i: nat, k: nat)
    requires DifferAt(s, t, i) && k <= |s|
    ensures i < k ==> DifferAt(s[..k], t[..k], i) && s[k..] == t[k..]
    ensures i >= k ==> s[..k] == t[..k] && DifferAt(s[k..], t[k..], i - k)
  {
    forall j | 0 <= j < |s| && j != i
      ensures s[j] == t[j]
    {
      assert j < i ==> s[j] == s[..i][j];
      assert j > i ==> s[j] == s[i + 1..][j - i - 1];
    }
  }

  /** The tail carries a change of the hash so far to the end. */
  lemma {:induction false} FinishKeeps(h: bv32, h': bv32, s: seq<Byte>)
    requires h != h'
    ensures Finish(h, s) != Finish(h', s)
    decreases |s|
  {
    hide Process1, Process4, Avalanche;
    if |s| >= 4 {
      Process4Apart(h, h', s[..4], s[..4]);
      FinishKeeps(Process4(h, s[..4]), Process4(h', s[..4]), s[4..]);
    } else if |s| > 0 {
      Process1Apart(h, h', s[0], s[0]);
      FinishKeeps(Process1(h, s[0]), Process1(h', s[0]), s[1..]);
    } else {
      AvalancheApart(h, h');
    }
  }

  /** And it shows a change of one of its bytes. */
  lemma {:induction false} FinishByte(h: bv32, s: seq<Byte>, t: seq<Byte>, i: nat)
    requires DifferAt(s, t, i)
    ensures Finish(h, s) != Finish(h, t)
    decreases |s|
  {
    hide Process1, Process4, Avalanche;
    var k := if |s| >= 4 then 4 else 1;
    DifferCut(s, t, i, k);
    if |s| >= 4 {
      if i < 4 {
        Process4Apart(h, h, s[..4], t[..4]);
        FinishKeeps(Process4(h, s[..4]), Process4(h, t[..4]), s[4..]);
      } else {
        FinishByte(Process4(h, s[..4]), s[4..], t[4..], i - 4);
      }
    } else if i == 0 {
      Process1Apart(h, h, s[0], t[0]);
      FinishKeeps(Process1(h, s[0]), Process1(h, t[0]), s[1..]);
    } else {
      FinishByte(Process1(h, s[0]), s[1..], t[1..], i - 1);
    }
  }

  // ---- lanes ----

  /** Exactly one lane is different. */
  ghost predicate OneLane(l: Lanes, m: Lanes) {
    || (l.a != m.a && l.b == m.b && l.c == m.c && l.d == m.d)
    || (l.a == m.a && l.b != m.b && l.c == m.c && l.d == m.d)
    || (l.a == m.a && l.b == m.b && l.c != m.c && l.d == m.d)
    || (l.a == m.a && l.b == m.b && l.c == m.c && l.d != m.d)
  }

  lemma SumApart(a: bv32, b: bv32, c: bv32, d: bv32, a': bv32, b': bv32, c': bv32, d': bv32)
    requires OneLane(Lanes(a, b, c, d), Lanes(a', b', c', d'))
    ensures Add(Add(Add(a, b), c), d) != Add(Add(Add(a', b'), c'), d')
  {
    hide Add;
    if a != a' {
      AddApart(a, a', b);
    } else if b != b' {
      AddApart(b, b', a);
    } else if c != c' {
      AddApart(c, c', Add(a, b));
    } else {
      AddApart(d, d', Add(Add(a, b), c));
    }
    if c == c' && d == d' {
      AddApart(Add(a, b), Add(a', b'), c);
    }
    if d == d' {
      AddApart(Add(Add(a, b), c), Add(Add(a', b'), c'), d);
    }
  }

  lemma ConvergeApart(l: Lanes, m: Lanes)
    requires OneLane(l, m)
    ensures Converge(l) != Converge(m)
  {
    hide Rotl, Add;
    if l.a != m.a {
      RotlApart(l.a, m.a);
    } else if l.b != m.b {
      RotlApart(l.b, m.b);
    } else if l.c != m.c {
      RotlApart(l.c, m.c);
    } else {
      RotlApart(l.d, m.d);
    }
    SumApart(Rotl(l.a, 1), Rotl(l.b, 7), Rotl(l.c, 12), Rotl(l.d, 18),
      Rotl(m.a, 1), Rotl(m.b, 7), Rotl(m.c, 12), Rotl(m.d, 18));
  }

  /** A stripe carries a change of one lane on. */
  lemma StripeKeeps(l: Lanes, m: Lanes, s: seq<Byte>)
    requires |s| == 16 && OneLane(l, m)
    ensures OneLane(Stripe(l, s), Stripe(m, s))
  {
    hide Round, ReadLE32;
    if l.a != m.a {
      RoundApart(l.a, m.a, ReadLE32(s[..4]), ReadLE32(s[..4]));
    } else if l.b != m.b {
      RoundApart(l.b, m.b, ReadLE32(s[4..8]), ReadLE32(s[4..8]));
    } else if l.c != m.c {
      RoundApart(l.c, m.c, ReadLE32(s[8..12]), ReadLE32(s[8..12]));
    } else {
      RoundApart(l.d, m.d, ReadLE32(s[12..]), ReadLE32(s[12..]));
    }
  }

  /** The group of four that begins at k. */
  lemma Group(s: seq<Byte>, t: seq<Byte>, i: nat, k: nat)
    requires |s| == 16 && DifferAt(s, t, i) && k <= 12
    ensures s[k..k + 4] == t[k..k + 4] <==> !(k <= i < k + 4)
  {
    DifferCut(s, t, i, k);
    assert s[k..k + 4] == s[k..][..4] && t[k..k + 4] == t[k..][..4];
    if i >= k {
      DifferCut(s[k..], t[k..], i - k, 4);
      if i < k + 4 {
        assert s[k..][..4][i - k] != t[k..][..4][i - k];
      }
    }
  }

  /** A change of one byte changes one lane. */
  lemma StripeByte(l: Lanes, s: seq<Byte>, t: seq<Byte>, i: nat)
    requires |s| == 16 && DifferAt(s, t, i)
    ensures OneLane(Stripe(l, s), Stripe(l, t))
  {
    hide Round, ReadLE32, DifferAt;
    SameLength(s, t, i);
    Group(s, t, i, 0);
    Group(s, t, i, 4);
    Group(s, t, i, 8);
    Group(s, t, i, 12);
    GroupEnds(s);
    GroupEnds(t);
    if i < 4 {
      ReadApart(s[0..4], t[0..4]);
      RoundApart(l.a, l.a, ReadLE32(s[0..4]), ReadLE32(t[0..4]));
    } else if i < 8 {
      ReadApart(s[4..8], t[4..8]);
      RoundApart(l.b, l.b, ReadLE32(s[4..8]), ReadLE32(t[4..8]));
    } else if i < 12 {
      ReadApart(s[8..12], t[8..12]);
      RoundApart(l.c, l.c, ReadLE32(s[8..12]), ReadLE32(t[8..12]));
    } else {
      ReadApart(s[12..16], t[12..16]);
      RoundApart(l.d, l.d, ReadLE32(s[12..16]), ReadLE32(t[12..16]));
    }
  }

  lemma SameLength(s: seq<Byte>, t: seq<Byte>, i: nat)
    requires DifferAt(s, t, i)
    ensures |s| == |t| && i < |s|
  {
  }

  lemma GroupEnds(s: seq<Byte>)
    requires |s| == 16
    ensures s[..4] == s[0..4] && s[12..] == s[12..16]
  {
  }

  lemma AbsorbUnfold(l: Lanes, s: seq<Byte>)
    ensures Absorb(l, s) == if |s| < 16 then l else Absorb(Stripe(l, s[..16]), s[16..])
  {
    hide Stripe;
  }

  lemma {:induction false} AbsorbKeeps(l: Lanes, m: Lanes, s: seq<Byte>)
    requires OneLane(l, m)
    ensures OneLane(Absorb(l, s), Absorb(m, s))
    decreases |s|
  {
    hide Stripe, OneLane;
    if |s| >= 16 {
      StripeKeeps(l, m, s[..16]);
      AbsorbKeeps(Stripe(l, s[..16]), Stripe(m, s[..16]), s[16..]);
    }
  }

  lemma {:induction false} AbsorbByte(l: Lanes, s: seq<Byte>, t: seq<Byte>, i: nat)
    requires DifferAt(s, t, i) && i < |s| - |s| % 16
    ensures OneLane(Absorb(l, s), Absorb(l, t))
    decreases |s|
  {
    hide Stripe, OneLane, DifferAt, Absorb;
    SameLength(s, t, i);
    DifferCut(s, t, i, 16);
    AbsorbUnfold(l, s);
    AbsorbUnfold(l, t);
    if i < 16 {
      StripeByte(l, s[..16], t[..16], i);
      AbsorbKeeps(Stripe(l, s[..16]), Stripe(l, t[..16]), s[16..]);
    } else {
      AbsorbByte(Stripe(l, s[..16]), s[16..], t[16..], i - 16);
    }
  }

  // ---- one byte matters ----

  lemma HashUnfold(l: Lanes, s: seq<Byte>)
    ensures var h := if |s| >= 16 then Converge(Absorb(l, s)) else ShortStart(l.c);
      Hash(l, s) == Finish(AddLength(h, |s| % TWO_TO_THE_32), Rest(s))
  {
  }

  lemma AddLengthApart(h: bv32, h': bv32, n: Word)
    requires h != h'
    ensures AddLength(h, n) != AddLength(h', n)
  {
    hide Add;
    AddApart(h, h', n as bv32);
  }

  /** Whatever the lanes, changing one byte of a string changes its hash. */
  lemma OneByteMatters(l: Lanes, s: seq<Byte>, t: seq<Byte>, i: nat)
    requires DifferAt(s, t, i)
    ensures Hash(l, s) != Hash(l, t)
  {
    hide Hash, Finish, AddLength, Converge, Absorb, ShortStart, DifferAt, OneLane;
    SameLength(s, t, i);
    HashUnfold(l, s);
    HashUnfold(l, t);
    var n := |s| - |s| % 16;
    var len: Word := |s| % TWO_TO_THE_32;
    DifferCut(s, t, i, n);
    AbsorbRest(l, s);
    AbsorbRest(l, t);
    if i < n {
      AbsorbByte(l, s, t, i);
      ConvergeApart(Absorb(l, s), Absorb(l, t));
      AddLengthApart(Converge(Absorb(l, s)), Converge(Absorb(l, t)), len);
      FinishKeeps(AddLength(Converge(Absorb(l, s)), len), AddLength(Converge(Absorb(l, t)), len), Rest(s));
    } else {
      FinishByte(AddLength(if |s| >= 16 then Converge(Absorb(l, s)) else ShortStart(l.c), len), Rest(s), Rest(t), i - n);
    }
  }
}
