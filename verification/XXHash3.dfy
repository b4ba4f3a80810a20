/** xxhash.h: the long-input XXH3 loop, and the streaming state that must agree with it.
    The accumulate, scramble and merge kernels and the hash of short inputs are parameters. */
module XXHash3 {
  import opened Arithmetic
  import opened Words

  const STRIPE_LEN := 64
  const CONSUME_RATE := 8
  const BUFFER_SIZE := 256
  const MIDSIZE_MAX := 240
  const SECRET_SIZE_MIN := 136
  const LASTACC_START := 7
  const MERGEACCS_START := 11
  const PRIME64_1 := 0x9E3779B185EBCA87

  type Bytes = seq<Byte>

  datatype Kernel<!A> = Kernel(
    init: A,
    accumulate: (A, Bytes, Bytes) -> A,  // one stripe of input, one of secret
    scramble: (A, Bytes) -> A,
    merge: (A, Bytes, int) -> int,
    short: (Bytes, Bytes) -> int         // input of up to MIDSIZE_MAX bytes, whole secret
  )

  /** Accumulators, and the number of stripes since the last scramble. */
  datatype Progress<A> = Progress(acc: A, soFar: nat)

  /** secretLimit: the offset of the last whole stripe of the secret. */
  function Limit(secret: Bytes): int {
    |secret| - STRIPE_LEN
  }

  function PerBlock(secret: Bytes): (n: int)
    ensures |secret| >= SECRET_SIZE_MIN ==> n >= 9 && n * CONSUME_RATE <= Limit(secret)
  {
    Limit(secret) / CONSUME_RATE
  }

  function SecretAt(secret: Bytes, o: int): (r: Bytes)
    requires 0 <= o <= Limit(secret)
    ensures |r| == STRIPE_LEN
  {
    secret[o..o + STRIPE_LEN]
  }

  /** One stripe, and the scramble that follows at once when it completes a block. */
  function Feed<A>(k: Kernel<A>, secret: Bytes, p: Progress<A>, stripe: Bytes): (q: Progress<A>)
    requires |secret| >= SECRET_SIZE_MIN && p.soFar < PerBlock(secret)
    ensures q.soFar < PerBlock(secret)
  {
    var acc := k.accumulate(p.acc, stripe, SecretAt(secret, CONSUME_RATE * p.soFar));
    if p.soFar + 1 == PerBlock(secret) then Progress(k.scramble(acc, SecretAt(secret, Limit(secret))), 0)
    else Progress(acc, p.soFar + 1)
  }

  /** The stripes of data, in order. */
  function Stream<A>(k: Kernel<A>, secret: Bytes, p: Progress<A>, data: Bytes): (q: Progress<A>)
    requires |secret| >= SECRET_SIZE_MIN && p.soFar < PerBlock(secret)
    ensures q.soFar < PerBlock(secret)
    decreases |data|
  {
    if |data| < STRIPE_LEN then p
    else Stream(k, secret, Feed(k, secret, p, data[..STRIPE_LEN]), data[STRIPE_LEN..])
  }

  /** Stripes without any scramble. */
  function Accumulated<A>(k: Kernel<A>, secret: Bytes, p: Progress<A>, data: Bytes, n: nat): A
    requires |data| >= n * STRIPE_LEN && |secret| >= SECRET_SIZE_MIN && p.soFar + n <= PerBlock(secret)
  {
    if n == 0 then p.acc else
    k.accumulate(Accumulated(k, secret, p, data, n - 1), data[(n - 1) * STRIPE_LEN..n * STRIPE_LEN],
                 SecretAt(secret, CONSUME_RATE * (p.soFar + n - 1)))
  }

  /** The stripes short of the last byte. */
  function Body(data: Bytes): Bytes
    requires data != []
  {
    data[..STRIPE_LEN * ((|data| - 1) / STRIPE_LEN)]
  }

  /** What a hash of more than MIDSIZE_MAX bytes is: whole stripes short of the last byte, then the last 64 bytes again. */
  function HashLong<A>(k: Kernel<A>, secret: Bytes, data: Bytes): int
    requires |secret| >= SECRET_SIZE_MIN && |data| >= STRIPE_LEN
  {
    var acc := Stream(k, secret, Progress(k.init, 0), Body(data)).acc;
    var last := k.accumulate(acc, data[|data| - STRIPE_LEN..], SecretAt(secret, Limit(secret) - LASTACC_START));
    k.merge(last, SecretAt(secret, MERGEACCS_START), |data| * PRIME64_1 % TWO_TO_THE_64)
  }

  /** XXH3_64bits_withSecret. */
  function OneShot<A>(k: Kernel<A>, secret: Bytes, data: Bytes): int
    requires |secret| >= SECRET_SIZE_MIN
  {
    if |data| <= MIDSIZE_MAX then k.short(data, secret) else HashLong(k, secret, data)
  }

  // ---- streams of stripes ----

  lemma {:induction false} StreamConcat<A>(k: Kernel<A>, secret: Bytes, p: Progress<A>, a: Bytes, b: Bytes)
    requires |secret| >= SECRET_SIZE_MIN && p.soFar < PerBlock(secret) && |a| % STRIPE_LEN == 0
    ensures Stream(k, secret, p, a + b) == Stream(k, secret, Stream(k, secret, p, a), b)
    decreases |a|
  {
    hide Feed;
    if a == [] {
      assert a + b == b;
    } else {
      assert (a + b)[..STRIPE_LEN] == a[..STRIPE_LEN] && (a + b)[STRIPE_LEN..] == a[STRIPE_LEN..] + b;
      StreamConcat(k, secret, Feed(k, secret, p, a[..STRIPE_LEN]), a[STRIPE_LEN..], b);
    }
  }

  /** Fewer stripes than complete the block: no scramble. */
  lemma {:induction false} StreamWithinBlock<A>(k: Kernel<A>, secret: Bytes, p: Progress<A>, data: Bytes, n: nat)
    requires |secret| >= SECRET_SIZE_MIN && p.soFar + n < PerBlock(secret) && |data| >= n * STRIPE_LEN
    ensures Stream(k, secret, p, data[..n * STRIPE_LEN]) == Progress(Accumulated(k, secret, p, data, n), p.soFar + n)
  {
    if n == 0 {
    } else {
      StreamWithinBlock(k, secret, p, data, n - 1);
      StreamOneMore(k, secret, p, data, n - 1);
    }
  }

  lemma StreamOneMore<A>(k: Kernel<A>, secret: Bytes, p: Progress<A>, data: Bytes, n: nat)
    requires |secret| >= SECRET_SIZE_MIN && p.soFar < PerBlock(secret) && |data| >= (n + 1) * STRIPE_LEN
    ensures Stream(k, secret, p, data[..(n + 1) * STRIPE_LEN]) ==
            Feed(k, secret, Stream(k, secret, p, data[..n * STRIPE_LEN]), data[n * STRIPE_LEN..(n + 1) * STRIPE_LEN])
  {
    hide Feed;
    var last := data[n * STRIPE_LEN..(n + 1) * STRIPE_LEN];
    assert data[..(n + 1) * STRIPE_LEN] == data[..n * STRIPE_LEN] + last;
    StreamConcat(k, secret, p, data[..n * STRIPE_LEN], last);
    assert last[..STRIPE_LEN] == last;
  }

  /** The stripe that completes a block. */
  lemma FeedCompletes<A>(k: Kernel<A>, secret: Bytes, acc: A, stripe: Bytes)
    requires |secret| >= SECRET_SIZE_MIN
    ensures Feed(k, secret, Progress(acc, PerBlock(secret) - 1), stripe) ==
      Progress(k.scramble(k.accumulate(acc, stripe, SecretAt(secret, CONSUME_RATE * (PerBlock(secret) - 1))),
                          SecretAt(secret, Limit(secret))), 0)
  {
  }

  /** Exactly the stripes that complete the block: accumulated, then scrambled. */
  lemma StreamCompletesBlock<A>(k: Kernel<A>, secret: Bytes, p: Progress<A>, data: Bytes, n: nat)
    requires |secret| >= SECRET_SIZE_MIN && n > 0 && p.soFar + n == PerBlock(secret) && |data| >= n * STRIPE_LEN
    ensures Stream(k, secret, p, data[..n * STRIPE_LEN]) ==
            Progress(k.scramble(Accumulated(k, secret, p, data, n), SecretAt(secret, Limit(secret))), 0)
  {
    hide Stream, Accumulated, SecretAt, Feed, PerBlock, Limit;
    StreamWithinBlock(k, secret, p, data, n - 1);
    StreamOneMore(k, secret, p, data, n - 1);
    AccumulatedOneMore(k, secret, p, data, n);
    FeedCompletes(k, secret, Accumulated(k, secret, p, data, n - 1), data[(n - 1) * STRIPE_LEN..n * STRIPE_LEN]);
  }

  lemma AccumulatedOneMore<A>(k: Kernel<A>, secret: Bytes, p: Progress<A>, data: Bytes, n: nat)
    requires |data| >= n * STRIPE_LEN && |secret| >= SECRET_SIZE_MIN && 0 < n && p.soFar + n <= PerBlock(secret)
    ensures Accumulated(k, secret, p, data, n) ==
            k.accumulate(Accumulated(k, secret, p, data, n - 1), data[(n - 1) * STRIPE_LEN..n * STRIPE_LEN],
                         SecretAt(secret, CONSUME_RATE * (p.soFar + n - 1)))
  {
  }

  // ---- the same in closed form ----

  /** What is done to the accumulators: a stripe is mixed in with 64 bytes of the secret, or they are scrambled. */
  datatype Event = Take(stripe: Bytes, key: Bytes) | Scramble(key: Bytes)

  function Apply<A>(k: Kernel<A>, acc: A, e: Event): A {
    match e
    case Take(stripe, key) => k.accumulate(acc, stripe, key)
    case Scramble(key) => k.scramble(acc, key)
  }

  function Applied<A>(k: Kernel<A>, events: seq<Event>): A {
    if events == [] then k.init else Apply(k, Applied(k, events[..|events| - 1]), events[|events| - 1])
  }

  /** Stripe j of the input with the secret from 8 times its place in its block; there is a place for every 8 bytes of the
      secret but the last 64, with which the accumulators are scrambled after the last one. */
  function StripeEvents(secret: Bytes, data: Bytes, j: nat): (r: seq<Event>)
    requires |secret| >= 136 && |data| >= 64 * (j + 1)
  {
    var w := (|secret| - 64) / 8;
    var at := 8 * (j % w);
    KeyFits(|secret|, j);
    [Take(data[64 * j..64 * j + 64], secret[at..at + 64])] +
    if (j + 1) % w == 0 then [Scramble(secret[|secret| - 64..])] else []
  }

  lemma KeyFits(n: nat, j: nat)
    requires n >= 136
    ensures var w := (n - 64) / 8; w > 0 && 0 <= 8 * (j % w) <= n - 64
  {
    var w := (n - 64) / 8;
    assert 0 <= j % w < w;
    assert 8 * w <= n - 64;
  }

  /** The first m stripes. */
  function Events(secret: Bytes, data: Bytes, m: nat): seq<Event>
    requires |secret| >= 136 && |data| >= 64 * m
  {
    if m == 0 then [] else Events(secret, data, m - 1) + StripeEvents(secret, data, m - 1)
  }

  lemma ApplyMore<A>(k: Kernel<A>, events: seq<Event>, more: seq<Event>)
    requires 1 <= |more| <= 2
    ensures Applied(k, events + more) ==
      if |more| == 1 then Apply(k, Applied(k, events), more[0]) else Apply(k, Apply(k, Applied(k, events), more[0]), more[1])
  {
    hide Apply;
    assert (events + more)[..|events + more| - 1] == events + more[..|more| - 1];
    if |more| == 2 {
      assert (events + more[..1])[..|events|] == events;
    } else {
      assert events + more[..0] == events;
    }
  }

  lemma NextPlace(m: nat, w: nat)
    requires w > 0
    ensures (m + 1) % w == if m % w + 1 == w then 0 else m % w + 1
  {
    var q, r := m / w, m % w;
    assert m == w * q + r;
    if r + 1 == w {
      MulDistributes(w, q, 1);
      DivUnique(m + 1, w, q + 1, 0);
    } else {
      DivUnique(m + 1, w, q, r + 1);
    }
  }

  lemma FeedApplies<A>(k: Kernel<A>, secret: Bytes, data: Bytes, m: nat, events: seq<Event>)
    requires |secret| >= 136 && |data| >= 64 * (m + 1)
    ensures m % PerBlock(secret) < PerBlock(secret)
    ensures var w := PerBlock(secret); var stripe := data[m * STRIPE_LEN..(m + 1) * STRIPE_LEN];
      Feed(k, secret, Progress(Applied(k, events), m % w), stripe) ==
      Progress(Applied(k, events + StripeEvents(secret, data, m)), (m + 1) % w)
  {
    hide Applied, Apply;
    var w := PerBlock(secret);
    KeyFits(|secret|, m);
    NextPlace(m, w);
    ApplyMore(k, events, StripeEvents(secret, data, m));
    Applying(k, Applied(k, events));
    assert data[m * STRIPE_LEN..(m + 1) * STRIPE_LEN] == data[64 * m..64 * m + 64];
    assert secret[|secret| - 64..] == SecretAt(secret, Limit(secret));
  }

  lemma Applying<A>(k: Kernel<A>, acc: A)
    ensures forall stripe, key :: Apply(k, acc, Take(stripe, key)) == k.accumulate(acc, stripe, key)
    ensures forall a, key :: Apply(k, a, Scramble(key)) == k.scramble(a, key)
  {
  }

  /** The eager scrambling of Feed is the closed form. */
  lemma {:induction false} StreamIs<A>(k: Kernel<A>, secret: Bytes, data: Bytes, m: nat)
    requires |secret| >= 136 && |data| >= 64 * m
    ensures Stream(k, secret, Progress(k.init, 0), data[..m * STRIPE_LEN]) ==
            Progress(Applied(k, Events(secret, data, m)), m % PerBlock(secret))
  {
    hide Stream, Feed, Applied, StripeEvents;
    if m == 0 {
      StreamWithinBlock(k, secret, Progress(k.init, 0), data, 0);
      AccumulatedNone(k, secret, Progress(k.init, 0), data);
      AppliedNone(k);
    } else {
      StreamIs(k, secret, data, m - 1);
      StreamOneMore(k, secret, Progress(k.init, 0), data, m - 1);
      FeedApplies(k, secret, data, m - 1, Events(secret, data, m - 1));
    }
  }

  lemma AppliedNone<A>(k: Kernel<A>)
    ensures Applied(k, []) == k.init
  {
  }

  /** What XXH3_64bits_withSecret computes, with all its numbers: for more than 240 bytes, the stripes that begin before the
      last byte, but for one that ends there, then the last 64 bytes once more. */
  lemma OneShotIs<A>(k: Kernel<A>, secret: Bytes, data: Bytes)
    requires |secret| >= 136
    ensures |data| <= 240 ==> OneShot(k, secret, data) == k.short(data, secret)
    ensures |data| > 240 ==>
      var n, end := |data|, |secret|;
      var last := Take(data[n - 64..], secret[end - 71..end - 7]);
      OneShot(k, secret, data) ==
        k.merge(Applied(k, Events(secret, data, (n - 1) / 64) + [last]), secret[11..75],
                n * 0x9E37_79B1_85EB_CA87 % 0x1_0000_0000_0000_0000)
  {
    hide Stream, Feed, Applied, Events;
    if |data| > 240 {
      var m := (|data| - 1) / 64;
      StreamIs(k, secret, data, m);
      assert Body(data) == data[..m * STRIPE_LEN];
      var end := |secret|;
      var last := Take(data[|data| - 64..], secret[end - 71..end - 7]);
      ApplyMore(k, Events(secret, data, m), [last]);
    }
  }

  // ---- the loops ----

  /** XXH3_accumulate: n stripes, the secret advancing by 8 bytes each. */
  method Accumulate<A>(k: Kernel<A>, secret: Bytes, acc0: A, soFar: nat, input: Bytes, n: nat) returns (acc: A)
    requires |input| >= n * STRIPE_LEN && |secret| >= SECRET_SIZE_MIN && soFar + n <= PerBlock(secret)
    ensures acc == Accumulated(k, secret, Progress(acc0, soFar), input, n)
  {
    acc := acc0;
    for i := 0 to n
      invariant acc == Accumulated(k, secret, Progress(acc0, soFar), input, i)
    {
      acc := k.accumulate(acc, input[i * STRIPE_LEN..(i + 1) * STRIPE_LEN], SecretAt(secret, CONSUME_RATE * (soFar + i)));
    }
  }

  /** XXH3_consumeStripes. */
  method ConsumeStripes<A>(k: Kernel<A>, secret: Bytes, acc0: A, soFar0: nat, input0: Bytes, nbStripes0: nat)
    returns (acc: A, soFar: nat, input: Bytes)
    requires |secret| >= SECRET_SIZE_MIN && soFar0 < PerBlock(secret) && |input0| >= nbStripes0 * STRIPE_LEN
    ensures Progress(acc, soFar) == Stream(k, secret, Progress(acc0, soFar0), input0[..nbStripes0 * STRIPE_LEN])
    ensures input == input0[nbStripes0 * STRIPE_LEN..]
  {
    hide Stream, Accumulated;
    acc, soFar, input := acc0, soFar0, input0;
    var nbStripes: nat := nbStripes0;
    ghost var p0 := Progress(acc0, soFar0);
    ghost var done: nat := 0;
    StreamWithinBlock(k, secret, p0, input0, 0);
    assert Accumulated(k, secret, p0, input0, 0) == acc0 by { AccumulatedNone(k, secret, p0, input0); }
    while nbStripes >= PerBlock(secret) - soFar
      invariant done + nbStripes == nbStripes0 && soFar < PerBlock(secret)
      invariant input == input0[done * STRIPE_LEN..]
      invariant Progress(acc, soFar) == Stream(k, secret, p0, input0[..done * STRIPE_LEN])
      decreases nbStripes
    {
      var nbStripesThisIter := PerBlock(secret) - soFar;
      ghost var p := Progress(acc, soFar);
      StreamCompletesBlock(k, secret, p, input, nbStripesThisIter);
      StreamSplit(k, secret, p0, input0, done, nbStripesThisIter);
      acc := Accumulate(k, secret, acc, soFar, input, nbStripesThisIter);
      acc := k.scramble(acc, SecretAt(secret, Limit(secret)));
      input := input[nbStripesThisIter * STRIPE_LEN..];
      nbStripes := nbStripes - nbStripesThisIter;
      done := done + nbStripesThisIter;
      soFar := 0;
    }
    StreamWithinBlock(k, secret, Progress(acc, soFar), input, nbStripes);
    StreamSplit(k, secret, p0, input0, done, nbStripes);
    if nbStripes > 0 {
      acc := Accumulate(k, secret, acc, soFar, input, nbStripes);
      input := input[nbStripes * STRIPE_LEN..];
      soFar := soFar + nbStripes;
    } else {
      AccumulatedNone(k, secret, Progress(acc, soFar), input);
    }
  }

  lemma AccumulatedNone<A>(k: Kernel<A>, secret: Bytes, p: Progress<A>, data: Bytes)
    requires |secret| >= SECRET_SIZE_MIN && p.soFar <= PerBlock(secret)
    ensures Accumulated(k, secret, p, data, 0) == p.acc
  {
  }

  lemma StreamSplit<A>(k: Kernel<A>, secret: Bytes, p: Progress<A>, data: Bytes, m: nat, n: nat)
    requires |secret| >= SECRET_SIZE_MIN && p.soFar < PerBlock(secret) && |data| >= (m + n) * STRIPE_LEN
    ensures Stream(k, secret, p, data[..(m + n) * STRIPE_LEN]) ==
            Stream(k, secret, Stream(k, secret, p, data[..m * STRIPE_LEN]), data[m * STRIPE_LEN..][..n * STRIPE_LEN])
    ensures data[m * STRIPE_LEN..][n * STRIPE_LEN..] == data[(m + n) * STRIPE_LEN..]
  {
    var rest := data[m * STRIPE_LEN..];
    assert (m + n) * STRIPE_LEN == m * STRIPE_LEN + n * STRIPE_LEN;
    assert data[..(m + n) * STRIPE_LEN] == data[..m * STRIPE_LEN] + rest[..n * STRIPE_LEN];
    StreamConcat(k, secret, p, data[..m * STRIPE_LEN], data[m * STRIPE_LEN..][..n * STRIPE_LEN]);
  }

  // ---- one shot ----

  /** Whole blocks and the stripes after them make up the stripes short of the last byte. */
  lemma BlocksAndStripes(x: nat, w: nat)
    requires w > 0
    ensures var b := x / (STRIPE_LEN * w); var s := (x - STRIPE_LEN * w * b) / STRIPE_LEN;
      0 <= b && 0 <= s < w && b * w + s == x / STRIPE_LEN
  {
    var b := x / (STRIPE_LEN * w);
    DivMod(x, STRIPE_LEN * w);
    var r := x - STRIPE_LEN * w * b;
    BlockFits(b, b + 1, w);
    assert STRIPE_LEN * w * b == b * w * STRIPE_LEN;
  }

  lemma BlockFits(n: nat, b: nat, w: nat)
    requires n < b
    ensures n * (STRIPE_LEN * w) == n * w * STRIPE_LEN
    ensures n * w + w == (n + 1) * w <= b * w
  {
    assert b * w - (n + 1) * w == (b - n - 1) * w >= 0;
    assert n * (STRIPE_LEN * w) == STRIPE_LEN * (n * w);
  }

  /** A whole block and its scramble; done counts the stripes before it. */
  method Block<A>(k: Kernel<A>, secret: Bytes, acc0: A, input: Bytes, offset: nat, ghost done: nat) returns (acc: A)
    requires |secret| >= SECRET_SIZE_MIN && offset == done * STRIPE_LEN
    requires (done + PerBlock(secret)) * STRIPE_LEN <= |input|
    requires Progress(acc0, 0) == Stream(k, secret, Progress(k.init, 0), input[..done * STRIPE_LEN])
    ensures Progress(acc, 0) == Stream(k, secret, Progress(k.init, 0), input[..(done + PerBlock(secret)) * STRIPE_LEN])
  {
    hide Stream, Accumulated;
    StreamCompletesBlock(k, secret, Progress(acc0, 0), input[offset..], PerBlock(secret));
    StreamSplit(k, secret, Progress(k.init, 0), input, done, PerBlock(secret));
    acc := Accumulate(k, secret, acc0, 0, input[offset..], PerBlock(secret));
    acc := k.scramble(acc, SecretAt(secret, Limit(secret)));
  }

  method Blocks<A>(k: Kernel<A>, secret: Bytes, input: Bytes, nbBlocks: nat) returns (acc: A)
    requires |secret| >= SECRET_SIZE_MIN && nbBlocks * PerBlock(secret) * STRIPE_LEN <= |input|
    ensures Progress(acc, 0) == Stream(k, secret, Progress(k.init, 0), input[..nbBlocks * PerBlock(secret) * STRIPE_LEN])
  {
    hide Stream, PerBlock, Accumulated;
    var nbStripesPerBlock := PerBlock(secret);
    var blockLen := STRIPE_LEN * nbStripesPerBlock;
    acc := k.init;
    StreamWithinBlock(k, secret, Progress(acc, 0), input, 0);
    AccumulatedNone(k, secret, Progress(acc, 0), input);
    ghost var done: nat := 0;
    for n := 0 to nbBlocks
      invariant done == n * nbStripesPerBlock && done <= nbBlocks * nbStripesPerBlock
      invariant Progress(acc, 0) == Stream(k, secret, Progress(k.init, 0), input[..done * STRIPE_LEN])
    {
      BlockFits(n, nbBlocks, nbStripesPerBlock);
      acc := Block(k, secret, acc, input, n * blockLen, done);
      done := done + nbStripesPerBlock;
    }
  }

  /** The last partial block; done counts the stripes before it. */
  method LastBlock<A>(k: Kernel<A>, secret: Bytes, acc0: A, input: Bytes, nbStripes: nat, offset: nat, ghost done: nat)
    returns (acc: A)
    requires |secret| >= SECRET_SIZE_MIN && offset == done * STRIPE_LEN && nbStripes < PerBlock(secret)
    requires |input| > 0 && done + nbStripes == (|input| - 1) / STRIPE_LEN
    requires Progress(acc0, 0) == Stream(k, secret, Progress(k.init, 0), input[..done * STRIPE_LEN])
    ensures acc == Stream(k, secret, Progress(k.init, 0), Body(input)).acc
  {
    hide Stream, Accumulated;
    StreamWithinBlock(k, secret, Progress(acc0, 0), input[done * STRIPE_LEN..], nbStripes);
    StreamSplit(k, secret, Progress(k.init, 0), input, done, nbStripes);
    acc := Accumulate(k, secret, acc0, 0, input[offset..], nbStripes);
  }

  /** XXH3_hashLong_internal_loop. */
  method HashLongLoop<A>(k: Kernel<A>, secret: Bytes, input: Bytes) returns (acc: A)
    requires |secret| >= SECRET_SIZE_MIN && |input| > MIDSIZE_MAX
    ensures acc == k.accumulate(Stream(k, secret, Progress(k.init, 0), Body(input)).acc,
                                input[|input| - STRIPE_LEN..], SecretAt(secret, Limit(secret) - LASTACC_START))
  {
    hide Stream, PerBlock, Body;
    var nbStripesPerBlock := PerBlock(secret);
    var blockLen := STRIPE_LEN * nbStripesPerBlock;
    var nbBlocks := (|input| - 1) / blockLen;
    var nbStripes := ((|input| - 1) - blockLen * nbBlocks) / STRIPE_LEN;
    BlocksAndStripes(|input| - 1, nbStripesPerBlock);
    BlockFits(nbBlocks, nbBlocks + 1, nbStripesPerBlock);
    acc := Blocks(k, secret, input, nbBlocks);
    acc := LastBlock(k, secret, acc, input, nbStripes, nbBlocks * blockLen, nbBlocks * nbStripesPerBlock);
    acc := k.accumulate(acc, input[|input| - STRIPE_LEN..], SecretAt(secret, Limit(secret) - LASTACC_START));
  }

  method XXH3WithSecret<A>(k: Kernel<A>, secret: Bytes, input: Bytes) returns (h: int)
    requires |secret| >= SECRET_SIZE_MIN
    ensures h == OneShot(k, secret, input)
  {
    if |input| <= MIDSIZE_MAX { return k.short(input, secret); }
    var acc := HashLongLoop(k, secret, input);
    h := k.merge(acc, SecretAt(secret, MERGEACCS_START), |input| * PRIME64_1 % TWO_TO_THE_64);
  }

  // ---- streaming ----

  /** What was fed but is not buffered has been streamed in whole stripes, and the last 64 bytes of it
      stand at the end of the buffer as long as fewer than 64 bytes are buffered. */
  ghost predicate Streamed<A>(k: Kernel<A>, secret: Bytes, p: Progress<A>, fed: Bytes, buffer: Bytes,
          bufferedSize: nat)
  {
    && |buffer| == BUFFER_SIZE && |secret| >= SECRET_SIZE_MIN
    && bufferedSize <= BUFFER_SIZE && bufferedSize <= |fed|
    && var consumed := |fed| - bufferedSize;
    && consumed % STRIPE_LEN == 0
    && p == Stream(k, secret, Progress(k.init, 0), fed[..consumed])
    && buffer[..bufferedSize] == fed[consumed..]
    && (consumed > 0 && bufferedSize < STRIPE_LEN ==>
          buffer[BUFFER_SIZE - STRIPE_LEN..] == fed[consumed - STRIPE_LEN..consumed])
  }

  function Overwrite(buffer: Bytes, at: nat, input: Bytes): Bytes
    requires at + |input| <= |buffer|
  {
    buffer[..at] + input + buffer[at + |input|..]
  }

  /** Storing what fits. */
  lemma StoredInBuffer<A>(k: Kernel<A>, secret: Bytes, p: Progress<A>, fed: Bytes, buffer: Bytes, n: nat, input: Bytes)
    requires Streamed(k, secret, p, fed, buffer, n) && n + |input| <= BUFFER_SIZE
    ensures Streamed(k, secret, p, fed + input, Overwrite(buffer, n, input), n + |input|)
  {
    hide Stream;
    var consumed := |fed| - n;
    var buffer' := Overwrite(buffer, n, input);
    assert (fed + input)[..consumed] == fed[..consumed];
    assert (fed + input)[consumed..] == fed[consumed..] + input;
    assert buffer'[..n + |input|] == buffer[..n] + input;
    if consumed > 0 && n + |input| < STRIPE_LEN {
      assert (fed + input)[consumed - STRIPE_LEN..consumed] == fed[consumed - STRIPE_LEN..consumed];
      assert buffer'[BUFFER_SIZE - STRIPE_LEN..] == buffer[BUFFER_SIZE - STRIPE_LEN..];
    }
  }

  /** Streaming a full buffer. */
  lemma FullBufferStreamed<A>(k: Kernel<A>, secret: Bytes, p: Progress<A>, fed: Bytes, buffer: Bytes)
    requires Streamed(k, secret, p, fed, buffer, BUFFER_SIZE)
    ensures p.soFar < PerBlock(secret)
    ensures Streamed(k, secret, Stream(k, secret, p, buffer), fed, buffer, 0)
  {
    var consumed := |fed| - BUFFER_SIZE;
    StreamConcat(k, secret, Progress(k.init, 0), fed[..consumed], buffer);
    hide Stream;
    assert buffer[..BUFFER_SIZE] == buffer;
    assert fed[..consumed] + buffer == fed == fed[..|fed|];
    assert buffer[BUFFER_SIZE - STRIPE_LEN..] == fed[|fed| - STRIPE_LEN..];
  }

  /** Streaming from the input while the buffer is empty, and keeping its last stripe. */
  lemma LargeInputStreamed<A>(k: Kernel<A>, secret: Bytes, p: Progress<A>, fed: Bytes, buffer: Bytes, input: Bytes,
          n: nat)
    requires Streamed(k, secret, p, fed, buffer, 0) && 0 < n && n * STRIPE_LEN <= |input|
    ensures p.soFar < PerBlock(secret)
    ensures Streamed(k, secret, Stream(k, secret, p, input[..n * STRIPE_LEN]), fed + input[..n * STRIPE_LEN],
      Overwrite(buffer, BUFFER_SIZE - STRIPE_LEN, input[n * STRIPE_LEN - STRIPE_LEN..n * STRIPE_LEN]), 0)
  {
    hide Stream, Feed, PerBlock;
    var eaten := input[..n * STRIPE_LEN];
    var last := input[n * STRIPE_LEN - STRIPE_LEN..n * STRIPE_LEN];
    StreamConcat(k, secret, Progress(k.init, 0), fed, eaten);
    var fed' := fed + eaten;
    assert fed[..|fed|] == fed && fed'[..|fed'|] == fed';
    assert fed'[|fed'| - STRIPE_LEN..|fed'|] == last;
    assert Overwrite(buffer, BUFFER_SIZE - STRIPE_LEN, last)[BUFFER_SIZE - STRIPE_LEN..] == last;
  }

  lemma WholeStripes(consumed: nat, b: nat)
    requires consumed % STRIPE_LEN == 0 && b > 0
    ensures consumed + (b - 1) / STRIPE_LEN * STRIPE_LEN == STRIPE_LEN * ((consumed + b - 1) / STRIPE_LEN)
  {
  }

  /** At the end: a stripe or more buffered, or a look-back past the buffered bytes. */
  lemma RemainingStripes<A>(k: Kernel<A>, secret: Bytes, p: Progress<A>, fed: Bytes, buffer: Bytes, b: nat)
    requires Streamed(k, secret, p, fed, buffer, b) && b >= STRIPE_LEN
    ensures p.soFar < PerBlock(secret)
    ensures Stream(k, secret, p, buffer[..(b - 1) / STRIPE_LEN * STRIPE_LEN]) ==
            Stream(k, secret, Progress(k.init, 0), Body(fed))
    ensures buffer[b - STRIPE_LEN..b] == fed[|fed| - STRIPE_LEN..]
  {
    var consumed := |fed| - b;
    var eaten := buffer[..(b - 1) / STRIPE_LEN * STRIPE_LEN];
    StreamConcat(k, secret, Progress(k.init, 0), fed[..consumed], eaten);
    hide Stream;
    assert eaten == buffer[..b][..|eaten|] == fed[consumed..][..|eaten|] == fed[consumed..consumed + |eaten|];
    WholeStripes(consumed, b);
    assert fed[..consumed] + eaten == fed[..consumed + |eaten|];
    assert buffer[b - STRIPE_LEN..b] == buffer[..b][b - STRIPE_LEN..];
  }

  lemma LookBack<A>(k: Kernel<A>, secret: Bytes, p: Progress<A>, fed: Bytes, buffer: Bytes, b: nat)
    requires Streamed(k, secret, p, fed, buffer, b) && 0 < b < STRIPE_LEN <= |fed|
    ensures p == Stream(k, secret, Progress(k.init, 0), Body(fed))
    ensures buffer[BUFFER_SIZE - (STRIPE_LEN - b)..] + buffer[..b] == fed[|fed| - STRIPE_LEN..]
  {
    hide Stream;
    var consumed := |fed| - b;
    assert consumed == STRIPE_LEN * ((|fed| - 1) / STRIPE_LEN);
    assert buffer[BUFFER_SIZE - (STRIPE_LEN - b)..] == buffer[BUFFER_SIZE - STRIPE_LEN..][b..];
    assert fed[|fed| - STRIPE_LEN..] == fed[consumed - STRIPE_LEN..consumed][b..] + fed[consumed..];
  }

  class State<!A> {
    const kernel: Kernel<A>
    const secret: Bytes
    const buffer: array<Byte>
    var acc: A
    var bufferedSize: nat
    var nbStripesSoFar: nat
    var totalLen: nat  // 64 bits wide
    ghost var fed: Bytes

    ghost predicate Streams()
      reads this, buffer
    {
      Streamed(kernel, secret, Progress(acc, nbStripesSoFar), fed, buffer[..], bufferedSize)
    }

    /** Something is always buffered, except at the beginning; and nothing is consumed before the buffer overflows. */
    ghost predicate Valid()
      reads this, buffer
    {
      && buffer.Length == BUFFER_SIZE && |secret| >= SECRET_SIZE_MIN && bufferedSize <= BUFFER_SIZE
      && bufferedSize <= |fed| && Streams() && totalLen == |fed| % TWO_TO_THE_64
      && (bufferedSize == 0 ==> fed == []) && (bufferedSize < |fed| ==> |fed| > BUFFER_SIZE)
    }

    /** XXH3_64bits_reset_withSecret. */
    constructor (kernel: Kernel<A>, secret: Bytes)
      requires |secret| >= SECRET_SIZE_MIN
      ensures Valid() && fresh(buffer) && fed == [] && this.kernel == kernel && this.secret == secret
    {
      this.kernel, this.secret := kernel, secret;
      buffer := new Byte[BUFFER_SIZE];
      acc, bufferedSize, nbStripesSoFar, totalLen, fed := kernel.init, 0, 0, 0, [];
    }

    /** memcpy(buffer + at, input, len). */
    method CopyIn(at: nat, input: Bytes)
      requires at + |input| <= buffer.Length
      modifies buffer
      ensures buffer[..] == Overwrite(old(buffer[..]), at, input)
    {
      for i := 0 to |input|
        invariant forall j :: 0 <= j < buffer.Length ==>
          buffer[j] == if at <= j < at + i then input[j - at] else old(buffer[j])
      {
        buffer[at + i] := input[i];
      }
    }

    /** Fits the buffer: only stored. */
    method BufferOnly(input: Bytes)
      requires buffer.Length == BUFFER_SIZE && Streams() && |input| <= BUFFER_SIZE - bufferedSize
      modifies this`bufferedSize, this`fed, buffer
      ensures Streams() && fed == old(fed) + input && bufferedSize == old(bufferedSize) + |input|
    {
      hide Streamed, Overwrite;
      StoredInBuffer(kernel, secret, Progress(acc, nbStripesSoFar), fed, buffer[..], bufferedSize, input);
      CopyIn(bufferedSize, input);
      bufferedSize := bufferedSize + |input|;
      fed := fed + input;
    }

    /** Completes the partly filled buffer and consumes all of it. */
    method FillBuffer(input: Bytes) returns (rest: Bytes)
      requires buffer.Length == BUFFER_SIZE && |secret| >= SECRET_SIZE_MIN
      requires Streams() && bufferedSize <= BUFFER_SIZE <= bufferedSize + |input|
      modifies this`acc, this`bufferedSize, this`nbStripesSoFar, this`fed, buffer
      ensures Streams() && bufferedSize == 0 && fed + rest == old(fed) + input
      ensures |rest| == |input| - (BUFFER_SIZE - old(bufferedSize))
    {
      hide Streamed, Stream;
      var loadSize := BUFFER_SIZE - bufferedSize;
      BufferOnly(input[..loadSize]);
      rest := input[loadSize..];
      FullBufferStreamed(kernel, secret, Progress(acc, nbStripesSoFar), fed, buffer[..]);
      var end: Bytes;
      acc, nbStripesSoFar, end := ConsumeStripes(kernel, secret, acc, nbStripesSoFar, buffer[..], BUFFER_SIZE / STRIPE_LEN);
      assert buffer[..][..BUFFER_SIZE / STRIPE_LEN * STRIPE_LEN] == buffer[..];
      bufferedSize := 0;
    }

    /** Consumes stripes straight from a large input, and keeps the last of them for the look-back. */
    method ConsumeLarge(input: Bytes) returns (rest: Bytes)
      requires buffer.Length == BUFFER_SIZE && |secret| >= SECRET_SIZE_MIN
      requires Streams() && bufferedSize == 0 && |input| > BUFFER_SIZE
      modifies this`acc, this`nbStripesSoFar, this`fed, buffer
      ensures Streams() && bufferedSize == 0 && fed + rest == old(fed) + input && 0 < |rest| <= STRIPE_LEN
    {
      hide Streamed, Stream, Overwrite;
      var nbStripes := (|input| - 1) / STRIPE_LEN;
      LargeInputStreamed(kernel, secret, Progress(acc, nbStripesSoFar), fed, buffer[..], input, nbStripes);
      acc, nbStripesSoFar, rest := ConsumeStripes(kernel, secret, acc, nbStripesSoFar, input, nbStripes);
      CopyIn(BUFFER_SIZE - STRIPE_LEN, input[nbStripes * STRIPE_LEN - STRIPE_LEN..nbStripes * STRIPE_LEN]);
      fed := fed + input[..nbStripes * STRIPE_LEN];
      assert input == input[..nbStripes * STRIPE_LEN] + rest;
    }

    /** XXH3_update. */
    method Update(input: Bytes)
      requires Valid()
      modifies this, buffer
      ensures Valid() && fed == old(fed) + input
    {
      hide Streamed;
      totalLen := (totalLen + |input|) % TWO_TO_THE_64;
      if |input| <= BUFFER_SIZE - bufferedSize {
        BufferOnly(input);
        return;
      }
      var rest := input;
      if bufferedSize > 0 {
        rest := FillBuffer(input);
      }
      if |rest| > BUFFER_SIZE {
        rest := ConsumeLarge(rest);
      }
      BufferOnly(rest);
    }

    /** XXH3_digest_long: on a copy of the accumulators. */
    method DigestLong() returns (out: A)
      requires Valid() && |fed| >= STRIPE_LEN
      ensures out == kernel.accumulate(Stream(kernel, secret, Progress(kernel.init, 0), Body(fed)).acc,
                                       fed[|fed| - STRIPE_LEN..], SecretAt(secret, Limit(secret) - LASTACC_START))
    {
      hide Stream, Streamed, Body;
      out := acc;
      var lastStripe: Bytes;
      if bufferedSize >= STRIPE_LEN {
        RemainingStripes(kernel, secret, Progress(acc, nbStripesSoFar), fed, buffer[..], bufferedSize);
        var nbStripes := (bufferedSize - 1) / STRIPE_LEN;
        var soFar := nbStripesSoFar;
        var end: Bytes;
        out, soFar, end := ConsumeStripes(kernel, secret, out, soFar, buffer[..], nbStripes);
        lastStripe := buffer[..][bufferedSize - STRIPE_LEN..bufferedSize];
      } else {
        LookBack(kernel, secret, Progress(acc, nbStripesSoFar), fed, buffer[..], bufferedSize);
        var catchupSize := STRIPE_LEN - bufferedSize;
        lastStripe := buffer[..][BUFFER_SIZE - catchupSize..] + buffer[..][..bufferedSize];
      }
      out := kernel.accumulate(out, lastStripe, SecretAt(secret, Limit(secret) - LASTACC_START));
    }

    /** XXH3_64bits_digest: the one-shot hash of everything fed, for every length that the one-shot function can take. */
    method Digest() returns (h: int)
      requires Valid()
      ensures |fed| < TWO_TO_THE_64 ==> h == OneShot(kernel, secret, fed)
    {
      hide Stream, Body;
      if |fed| <= BUFFER_SIZE {
        assert buffer[..][..|fed|] == fed;
      }
      hide Streamed;
      if totalLen > MIDSIZE_MAX {
        var last := DigestLong();
        h := kernel.merge(last, SecretAt(secret, MERGEACCS_START), totalLen * PRIME64_1 % TWO_TO_THE_64);
      } else {
        h := kernel.short(buffer[..][..totalLen], secret);
      }
    }
  }
}
