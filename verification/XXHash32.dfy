/** xxhash.h: the 32-bit hash, one-shot and streaming. */
module XXHash32 {
  import opened Words

  const PRIME32_1: bv32 := 0x9E37_79B1
  const PRIME32_2: bv32 := 0x85EB_CA77
  const PRIME32_3: bv32 := 0xC2B2_AE3D
  const PRIME32_4: bv32 := 0x27D4_EB2F
  const PRIME32_5: bv32 := 0x1656_67B1

  // ---- 32-bit arithmetic ----

  function Add(x: bv32, y: bv32): bv32 {
    x + y
  }

  function Mul(x: bv32, y: bv32): bv32 {
    x * y
  }

  /** XXH_rotl32. */
  function Rotl(x: bv32, r: bv32): bv32
    requires 0 < r < 32
  {
    (x << r) | (x >> (32 - r))
  }

  function XorShift13(x: bv32): bv32 {
    x ^ (x >> 13)
  }

  function XorShift15(x: bv32): bv32 {
    x ^ (x >> 15)
  }

  function XorShift16(x: bv32): bv32 {
    x ^ (x >> 16)
  }

  function Bits(b: Byte): bv32 {
    (b as bv8) as bv32
  }

  /** XXH_readLE32. */
  function ReadLE32(s: seq<Byte>): bv32
    requires |s| == 4
  {
    Bits(s[0]) | (Bits(s[1]) << 8) | (Bits(s[2]) << 16) | (Bits(s[3]) << 24)
  }

  /** XXH32_round. */
  function Round(acc: bv32, input: bv32): bv32 {
    Mul(Rotl(Add(acc, Mul(input, PRIME32_2)), 13), PRIME32_1)
  }

  /** XXH32_avalanche. */
  function Avalanche(h: bv32): bv32 {
    var h1 := Mul(XorShift15(h), PRIME32_2);
    var h2 := Mul(XorShift13(h1), PRIME32_3);
    XorShift16(h2)
  }

  function Process1(h: bv32, b: Byte): bv32 {
    Mul(Rotl(Add(h, Mul(Bits(b), PRIME32_5)), 11), PRIME32_1)
  }

  function Process4(h: bv32, s: seq<Byte>): bv32
    requires |s| == 4
  {
    Mul(Rotl(Add(h, Mul(ReadLE32(s), PRIME32_3)), 17), PRIME32_4)
  }

  // ---- the hash of a whole byte string ----

  datatype Lanes = Lanes(a: bv32, b: bv32, c: bv32, d: bv32)

  function SeedLanes(seed: bv32): Lanes {
    Lanes(seed + PRIME32_1 + PRIME32_2, seed + PRIME32_2, seed + 0, seed - PRIME32_1)
  }

  function Stripe(l: Lanes, s: seq<Byte>): Lanes
    requires |s| == 16
  {
    Lanes(Round(l.a, ReadLE32(s[..4])), Round(l.b, ReadLE32(s[4..8])),
          Round(l.c, ReadLE32(s[8..12])), Round(l.d, ReadLE32(s[12..])))
  }

  /** All the full stripes of s. */
  function Absorb(l: Lanes, s: seq<Byte>): Lanes
    decreases |s|
  {
    if |s| < 16 then l else Absorb(Stripe(l, s[..16]), s[16..])
  }

  function Converge(l: Lanes): bv32 {
    Add(Add(Add(Rotl(l.a, 1), Rotl(l.b, 7)), Rotl(l.c, 12)), Rotl(l.d, 18))
  }

  /** The up to 15 bytes that no full stripe covers. */
  function Rest(s: seq<Byte>): seq<Byte> {
    s[|s| - |s| % 16..]
  }

  function Finish(h: bv32, s: seq<Byte>): bv32
    decreases |s|
  {
    if |s| >= 4 then Finish(Process4(h, s[..4]), s[4..])
    else if |s| > 0 then Finish(Process1(h, s[0]), s[1..])
    else Avalanche(h)
  }

  /** Where the hash of fewer than 16 bytes begins. */
  function ShortStart(c: bv32): bv32 {
    Add(c, PRIME32_5)
  }

  /** The 32-bit length is mixed in. */
  function AddLength(h: bv32, n: Word): bv32 {
    Add(h, n as bv32)
  }

  function Hash(l: Lanes, s: seq<Byte>): bv32 {
    var h := if |s| >= 16 then Converge(Absorb(l, s)) else ShortStart(l.c);
    Finish(AddLength(h, |s| % TWO_TO_THE_32), Rest(s))
  }

  // ---- stripes and concatenation ----

  lemma {:induction false} AbsorbConcat(l: Lanes, s: seq<Byte>, t: seq<Byte>)
    requires |s| % 16 == 0
    ensures Absorb(l, s + t) == Absorb(Absorb(l, s), t)
    decreases |s|
  {
    hide Stripe;
    if s == [] {
      assert s + t == t;
    } else {
      assert (s + t)[..16] == s[..16] && (s + t)[16..] == s[16..] + t;
      AbsorbConcat(Stripe(l, s[..16]), s[16..], t);
    }
  }

  /** Only full stripes matter to the lanes. */
  lemma AbsorbRest(l: Lanes, s: seq<Byte>)
    ensures Absorb(l, s) == Absorb(l, s[..|s| - |s| % 16])
    ensures s == s[..|s| - |s| % 16] + Rest(s)
  {
    hide Stripe;
    var n := |s| - |s| % 16;
    assert s == s[..n] + s[n..];
    AbsorbConcat(l, s[..n], s[n..]);
  }

  // ---- the code ----

  /** XXH32_finalize on the remaining bytes. */
  method Finalize(hash: bv32, s: seq<Byte>) returns (h: bv32)
    requires |s| < 16
    ensures h == Finish(hash, s)
  {
    hide Process4, Process1, Avalanche;
    h := hash;
    var p := 0;
    while |s| - p >= 4
      invariant p <= |s| && Finish(h, s[p..]) == Finish(hash, s)
    {
      assert s[p..][..4] == s[p..p + 4] && s[p..][4..] == s[p + 4..];
      h := Process4(h, s[p..p + 4]);
      p := p + 4;
    }
    while |s| - p > 0
      invariant p <= |s| < p + 4 && Finish(h, s[p..]) == Finish(hash, s)
    {
      assert s[p..][1..] == s[p + 1..];
      h := Process1(h, s[p]);
      p := p + 1;
    }
    assert s[p..] == [];
    h := Avalanche(h);
  }

  /** The `do` loop of XXH32 for 16 bytes or more; returns where the last stripe ended. */
  method AbsorbAll(input: seq<Byte>, lanes: Lanes) returns (v: Lanes, p: nat)
    requires |input| >= 16
    ensures v == Absorb(lanes, input) && p <= |input| && input[p..] == Rest(input)
  {
    hide Stripe;
    v, p := lanes, 0;
    var limit := |input| - 15;
    while true
      invariant p % 16 == 0 && p <= |input| - 16
      invariant Absorb(v, input[p..]) == Absorb(lanes, input)
      decreases |input| - p
    {
      assert input[p..][..16] == input[p..p + 16] && input[p..][16..] == input[p + 16..];
      v := Stripe(v, input[p..p + 16]);
      p := p + 16;
      if p >= limit { break; }
    }
  }

  /** XXH32. */
  method XXH32(input: seq<Byte>, seed: bv32) returns (h: bv32)
    ensures h == Hash(SeedLanes(seed), input)
  {
    hide Round, ReadLE32, Converge, Absorb, Finish, ShortStart, AddLength, SeedLanes;
    var p := 0;
    if |input| >= 16 {
      var v;
      v, p := AbsorbAll(input, SeedLanes(seed));
      h := Converge(v);
    } else {
      ThirdLane(seed);
      h := ShortStart(seed);
    }
    h := AddLength(h, |input| % TWO_TO_THE_32);
    h := Finalize(h, input[p..]);
  }

  lemma ThirdLane(seed: bv32)
    ensures SeedLanes(seed).c == seed
  {
  }

  /** XXH32_state_t. */
  class State {
    var totalLen32: Word
    var largeLen: bool
    var v: Lanes
    const mem32: array<Byte>
    var memsize: nat
    ghost var start: Lanes      // the lanes before any input
    ghost var fed: seq<Byte>    // all input so far

    /** The lanes hold the full stripes of the input and the buffer holds the rest. */
    ghost predicate Absorbed()
      reads this, mem32
    {
      && mem32.Length == 16
      && v == Absorb(start, fed)
      && memsize == |Rest(fed)| && mem32[..memsize] == Rest(fed)
    }

    ghost predicate Valid()
      reads this, mem32
    {
      && Absorbed()
      && totalLen32 == |fed| % TWO_TO_THE_32
      && (largeLen <==> |fed| >= 16)
    }

    /** Any state with no buffered bytes, zero length and a clear flag, whatever its lanes: XXH32_reset is the case of seed lanes. */
    constructor (lanes: Lanes)
      ensures Valid() && start == lanes && fed == [] && fresh(mem32)
    {
      totalLen32, largeLen, v, memsize := 0, false, lanes, 0;
      mem32 := new Byte[16](i => 0);
      start, fed := lanes, [];
    }

    /** XXH32_update. */
    method Update(input: seq<Byte>)
      requires Valid()
      modifies this, mem32
      ensures Valid() && start == old(start) && fed == old(fed) + input
    {
      hide Absorb, Rest;
      var len := |input|;
      TotalLength(|fed|, len);
      Buffered(fed);
      totalLen32 := (totalLen32 + len) % TWO_TO_THE_32;
      largeLen := largeLen || len >= 16 || totalLen32 >= 16;
      if memsize + len < 16 {
        BufferOnly(input);
      } else {
        AbsorbLarge(input);
      }
    }

    /** Not enough for a stripe: fill in the buffer. */
    method BufferOnly(input: seq<Byte>)
      requires Absorbed() && memsize + |input| < 16
      modifies this`memsize, this`fed, mem32
      ensures Absorbed() && fed == old(fed) + input
    {
      hide Absorb;
      CopyIn(memsize, input);
      memsize := memsize + |input|;
      BufferedOnly(start, fed, input);
      fed := fed + input;
    }

    method AbsorbLarge(input: seq<Byte>)
      requires Absorbed() && memsize + |input| >= 16
      modifies this`v, this`memsize, this`fed, mem32
      ensures Absorbed() && fed == old(fed) + input
    {
      hide Absorb, Rest;
      var p := 0;
      ghost var whole := fed[..|fed| - |fed| % 16];  // what the lanes have absorbed
      AbsorbRest(start, fed);
      if memsize > 0 {
        p := FillBuffer(input, whole);
        whole := fed + input[..p];
        assert whole + input[p..] == fed + input;
      } else {
        assert whole == fed && input[0..] == input;
      }
      AbsorbStripes(input, p, whole);
    }

    /** Complete the buffer from the input and absorb it. */
    method FillBuffer(input: seq<Byte>, ghost whole: seq<Byte>) returns (p: nat)
      requires mem32.Length == 16 && 0 < memsize < 16 <= memsize + |input|
      requires v == Absorb(start, whole) && |whole| % 16 == 0 && fed == whole + mem32[..memsize]
      modifies this`v, this`memsize, mem32
      ensures p <= |input| && memsize == 0 && v == Absorb(start, fed + input[..p]) && |fed + input[..p]| % 16 == 0
    {
      hide Stripe;
      p := 16 - memsize;
      CopyIn(memsize, input[..p]);
      v := Stripe(v, mem32[..]);
      var s := mem32[..];
      assert s[..16] == s && s[16..] == [];
      assert Absorb(Absorb(start, whole), s) == v;
      AbsorbConcat(start, whole, s);
      assert whole + s == fed + input[..p];
      memsize := 0;
    }

    /** The stripes of the input from p on, and the rest of it into the buffer. */
    method AbsorbStripes(input: seq<Byte>, from: nat, ghost before: seq<Byte>)
      requires mem32.Length == 16 && memsize == 0 && from <= |input|
      requires v == Absorb(start, before) && |before| % 16 == 0 && before + input[from..] == fed + input
      modifies this`v, this`memsize, this`fed, mem32
      ensures fed == old(fed) + input && Absorbed()
    {
      hide Stripe, Rest;
      ghost var all := fed + input;
      ghost var whole := before;
      var p := from;
      while p <= |input| - 16
        invariant p <= |input| && |whole| % 16 == 0 && whole + input[p..] == all
        invariant v == Absorb(start, whole) && memsize == 0 && fed == old(fed)
      {
        var s := input[p..p + 16];
        v := Stripe(v, s);
        assert s[..16] == s && s[16..] == [];
        assert Absorb(Absorb(start, whole), s) == v;
        AbsorbConcat(start, whole, s);
        assert input[p..] == s + input[p + 16..];
        whole := whole + s;
        p := p + 16;
      }
      StoreRest(input, p, whole);
    }

    /** What is left of the input goes into the empty buffer. */
    method StoreRest(input: seq<Byte>, p: nat, ghost whole: seq<Byte>)
      requires mem32.Length == 16 && memsize == 0 && p <= |input| < p + 16
      requires v == Absorb(start, whole) && |whole| % 16 == 0 && whole + input[p..] == fed + input
      modifies this`memsize, this`fed, mem32
      ensures fed == old(fed) + input && Absorbed()
    {
      hide Absorb;
      ghost var all := fed + input;
      if p < |input| {
        CopyIn(0, input[p..]);
        memsize := |input| - p;
      }
      assert all[..|whole|] == whole && all[|whole|..] == input[p..];
      assert |all| == |whole| + memsize;
      assert |all| % 16 == memsize;
      AbsorbRest(start, all);
      fed := all;
    }

    /** XXH_memcpy into the internal buffer. */
    method CopyIn(at: nat, s: seq<Byte>)
      requires mem32.Length == 16 && at + |s| <= 16
      modifies mem32
      ensures mem32[..at] == old(mem32[..at]) && mem32[at..at + |s|] == s
      ensures mem32[..at + |s|] == old(mem32[..at]) + s
    {
      for i := 0 to |s|
        invariant mem32[..at] == old(mem32[..at]) && mem32[at..at + i] == s[..i]
      {
        mem32[at + i] := s[i];
      }
    }

    /** XXH32_digest. */
    method Digest() returns (h: bv32)
      requires Valid()
      ensures h == Hash(start, fed)
    {
      hide Round, ReadLE32, Converge, Avalanche, Process1, Process4, ShortStart, AddLength;
      if largeLen {
        h := Converge(v);
      } else {
        h := ShortStart(v.c);
      }
      h := AddLength(h, totalLen32);
      h := Finalize(h, mem32[..memsize]);
    }
  }

  lemma BufferedOnly(l: Lanes, s: seq<Byte>, t: seq<Byte>)
    requires |s| % 16 + |t| < 16
    ensures Absorb(l, s + t) == Absorb(l, s) && Rest(s + t) == Rest(s) + t
    ensures |s + t| % 16 == |s| % 16 + |t|
  {
    var n := |s| - |s| % 16;
    assert (s + t)[..n] == s[..n] && (s + t)[n..] == s[n..] + t;
    assert |s + t| % 16 == |s| % 16 + |t|;
    AbsorbRest(l, s);
    AbsorbRest(l, s + t);
  }

  lemma Buffered(s: seq<Byte>)
    ensures |Rest(s)| == |s| % 16
  {
  }

  /** The length is kept modulo 2^32, and the flag stays right although the length wraps. */
  lemma TotalLength(n: nat, len: nat)
    ensures (n % TWO_TO_THE_32 + len) % TWO_TO_THE_32 == (n + len) % TWO_TO_THE_32
    ensures n >= 16 || len >= 16 || (n % TWO_TO_THE_32 + len) % TWO_TO_THE_32 >= 16 <==> n + len >= 16
  {
  }
}
