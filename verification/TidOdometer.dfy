/** interleaver.c: `tids_valid` and `next_tid`, the odometer over thread orderings. */
module TidOdometer {
  import opened Arithmetic

  predicate InRange(t: seq<nat>, n: nat) {
    forall i :: 0 <= i < |t| ==> 1 <= t[i] <= n
  }

  /** No two neighbours name the same thread. */
  predicate Alternating(t: seq<nat>) {
    forall i :: 0 <= i < |t| - 1 ==> t[i] != t[i + 1]
  }

  /** The number whose base-n digits, least significant first, are t[i] - 1. */
  function Val(t: seq<nat>, n: nat): int {
    if t == [] then 0 else (t[0] - 1) + n * Val(t[1..], n)
  }

  function Pow(b: nat, e: nat): nat {
    if e == 0 then 1 else b * Pow(b, e - 1)
  }

  function Ones(k: nat): seq<nat> {
    seq(k, i => 1)
  }

  /** One pass of the `for` loop of `next_tid`: add one, carrying upwards. */
  function Increment(t: seq<nat>, n: nat): (r: seq<nat>)
    requires InRange(t, n)
    ensures |r| == |t| && InRange(r, n)
  {
    if t == [] then []
    else if t[0] < n then [t[0] + 1] + t[1..]
    else [1] + Increment(t[1..], n)
  }

  predicate AllMax(t: seq<nat>, n: nat) {
    forall i :: 0 <= i < |t| ==> t[i] == n
  }

  lemma HornerBounds(n: nat, d: int, v: int, p: int)
    requires 0 <= d < n && 0 <= v < p
    ensures 0 <= d + n * v < n * p
  {
    MulMonotone(n, 0, v);
    MulMonotone(n, v + 1, p);
    MulDistributes(n, v, 1);
  }

  lemma {:induction false} ValBounds(t: seq<nat>, n: nat)
    requires InRange(t, n)
    ensures 0 <= Val(t, n) < Pow(n, |t|)
  {
    if t != [] {
      ValBounds(t[1..], n);
      HornerBounds(n, t[0] - 1, Val(t[1..], n), Pow(n, |t| - 1));
    }
  }

  lemma {:induction false} ValOnes(k: nat, n: nat)
    ensures Val(Ones(k), n) == 0
  {
    if k > 0 {
      assert Ones(k)[1..] == Ones(k - 1);
      ValOnes(k - 1, n);
    }
  }

  lemma {:induction false} ValInjective(s: seq<nat>, t: seq<nat>, n: nat)
    requires |s| == |t| && InRange(s, n) && InRange(t, n) && Val(s, n) == Val(t, n)
    ensures s == t
  {
    if s != [] {
      var x, y := Val(s[1..], n), Val(t[1..], n);
      assert n * (x + 1) == n * x + n && n * (y + 1) == n * y + n;
      if x < y {
        MulMonotone(n, x + 1, y);
      } else if y < x {
        MulMonotone(n, y + 1, x);
      }
      ValInjective(s[1..], t[1..], n);
      assert s == [s[0]] + s[1..] && t == [t[0]] + t[1..];
    }
  }

  /** The order of the values: the last place in which two orderings differ decides. */
  lemma {:induction false} LastDifferenceDecides(s: seq<nat>, t: seq<nat>, n: nat, j: nat)
    requires |s| == |t| && InRange(s, n) && InRange(t, n)
    requires j < |s| && s[j] < t[j] && s[j + 1..] == t[j + 1..]
    ensures Val(s, n) < Val(t, n)
  {
    if j == 0 {
      assert s[1..] == t[1..];
    } else {
      assert s[1..][j..] == s[j + 1..] && t[1..][j..] == t[j + 1..];
      LastDifferenceDecides(s[1..], t[1..], n, j - 1);
      var x, y := Val(s[1..], n), Val(t[1..], n);
      MulMonotone(n, x + 1, y);
      MulDistributes(n, x, 1);
    }
  }

  /** Past the largest ordering the odometer wraps to all ones. */
  lemma {:induction false} IncrementWraps(t: seq<nat>, n: nat)
    requires InRange(t, n) && AllMax(t, n)
    ensures Increment(t, n) == Ones(|t|) && Val(t, n) == Pow(n, |t|) - 1
  {
    if t != [] {
      IncrementWraps(t[1..], n);
      MulDistributes(n, Val(t[1..], n), 1);
    }
  }

  lemma {:induction false} IncrementVal(t: seq<nat>, n: nat)
    requires InRange(t, n) && !AllMax(t, n)
    ensures Val(Increment(t, n), n) == Val(t, n) + 1
  {
    if t[0] < n {
      assert ([t[0] + 1] + t[1..])[1..] == t[1..];
    } else {
      assert !AllMax(t[1..], n);
      IncrementVal(t[1..], n);
      assert Increment(t, n)[1..] == Increment(t[1..], n);
      MulDistributes(n, Val(t[1..], n), 1);
    }
  }

  lemma {:induction false} IncrementAt(t: seq<nat>, n: nat, p: nat)
    requires InRange(t, n) && p < |t| && AllMax(t[..p], n) && t[p] < n
    ensures Increment(t, n) == Ones(p) + [t[p] + 1] + t[p + 1..]
  {
    if p > 0 {
      assert t[0] == t[..p][0] && t[..p][1..] == t[1..][..p - 1];
      IncrementAt(t[1..], n, p - 1);
      assert Ones(p) == [1] + Ones(p - 1);
    }
  }

  method TidsValid(tids: array<nat>) returns (ok: bool)
    requires tids.Length >= 1
    ensures ok <==> Alternating(tids[..])
  {
    for i := 0 to tids.Length - 1
      invariant forall j :: 0 <= j < i ==> tids[j] != tids[j + 1]
    {
      if tids[i] == tids[i + 1] { return false; }
    }
    return true;
  }

  /** t follows s in the enumeration: the least valid ordering above s. */
  ghost predicate IsNext(s: seq<nat>, t: seq<nat>, n: nat) {
    && |t| == |s| && InRange(t, n) && Alternating(t) && Val(s, n) < Val(t, n)
    && forall u :: |u| == |s| && InRange(u, n) && Alternating(u) && Val(s, n) < Val(u, n) ==> Val(t, n) <= Val(u, n)
  }

  ghost predicate IsLast(s: seq<nat>, n: nat) {
    forall u :: |u| == |s| && InRange(u, n) && Alternating(u) ==> Val(u, n) <= Val(s, n)
  }

  /** The carry loop of `next_tid`. */
  method IncrementInPlace(tids: array<nat>, n: nat) returns (carry: bool)
    requires tids.Length >= 1 && InRange(tids[..], n)
    modifies tids
    ensures tids[..] == Increment(old(tids[..]), n)
    ensures carry <==> AllMax(old(tids[..]), n)
  {
    ghost var t := tids[..];
    ghost var p: nat := 0;  // the digits before p were at their maximum
    carry := false;
    for i := 0 to tids.Length
      invariant p <= i && (carry <==> p == i > 0)
      invariant forall j :: 0 <= j < p ==> t[j] == n && tids[j] == 1
      invariant p < i ==> t[p] < n && tids[p] == t[p] + 1
      invariant forall j :: p <= j < tids.Length && (j != p || p == i) ==> tids[j] == t[j]
    {
      if i == 0 { tids[0] := tids[0] + 1; }
      if carry {
        tids[i] := tids[i] + 1;
        carry := false;
      }
      if tids[i] > n {
        tids[i] := 1;
        carry := true;
        p := i + 1;
      }
    }
    if carry {
      IncrementWraps(t, n);
    } else {
      IncrementAt(t, n, p);
      assert !AllMax(t, n);
    }
  }

  method NextTid(tids: array<nat>, n: nat) returns (more: bool)
    requires tids.Length >= 1 && InRange(tids[..], n)
    modifies tids
    ensures more ==> IsNext(old(tids[..]), tids[..], n)
    ensures !more ==> IsLast(old(tids[..]), n) && tids[..] == Ones(tids.Length)
  {
    ghost var s := tids[..];
    ghost var first := true;
    while true
      invariant InRange(tids[..], n) && Val(s, n) <= Val(tids[..], n)
      invariant first <==> tids[..] == s
      invariant forall u :: |u| == |s| && InRange(u, n) && Alternating(u) && Val(s, n) < Val(u, n)
                  ==> Val(tids[..], n) < Val(u, n)
      decreases Pow(n, tids.Length) - Val(tids[..], n)
    {
      ghost var t := tids[..];
      ValBounds(t, n);
      if AllMax(t, n) {
        IncrementWraps(t, n);
      } else {
        IncrementVal(t, n);
      }
      var carry := IncrementInPlace(tids, n);
      first := false;
      if carry {
        forall u | |u| == |s| && InRange(u, n) && Alternating(u)
          ensures Val(u, n) <= Val(s, n)
        {
          ValBounds(u, n);
        }
        return false;
      }
      var ok := TidsValid(tids);
      if ok { return true; }
      forall u | |u| == |s| && InRange(u, n) && Alternating(u) && Val(s, n) < Val(u, n)
        ensures Val(tids[..], n) < Val(u, n)
      {
        if Val(tids[..], n) == Val(u, n) {
          ValInjective(tids[..], u, n);
        }
      }
    }
    return false;
  }

  // ---- the whole enumeration ----

  /** All valid orderings of `len` segments, by increasing most significant (last) digit first. */
  function Orderings(n: nat, len: nat): seq<seq<nat>>
    decreases len, n + 2
  {
    if len == 0 then [[]] else OrderingsFrom(n, len, 1)
  }

  /** Those whose last digit is at least d. */
  function OrderingsFrom(n: nat, len: nat, d: nat): seq<seq<nat>>
    requires len >= 1 && d >= 1
    decreases len, if d <= n then n + 1 - d else 0
  {
    if d > n then [] else Extend(Orderings(n, len - 1), d) + OrderingsFrom(n, len, d + 1)
  }

  function Extend(ps: seq<seq<nat>>, d: nat): seq<seq<nat>> {
    if ps == [] then []
    else (if EndsIn(ps[0], d) then [] else [ps[0] + [d]]) + Extend(ps[1..], d)
  }

  predicate EndsIn(p: seq<nat>, d: nat) {
    p != [] && p[|p| - 1] == d
  }

  ghost predicate ValidOrdering(t: seq<nat>, n: nat, len: nat) {
    |t| == len && InRange(t, n) && Alternating(t)
  }

  ghost predicate Ascending(ps: seq<seq<nat>>, n: nat) {
    forall i, j :: 0 <= i < j < |ps| ==> Val(ps[i], n) < Val(ps[j], n)
  }

  lemma HornerAppend(n: int, v: int, w: int, x: int)
    ensures n * (v + w * x) == n * v + (n * w) * x
  {
    MulDistributes(n, v, w * x);
    assert n * (w * x) == (n * w) * x;
  }

  lemma {:induction false} ValAppend(p: seq<nat>, d: nat, n: nat)
    ensures Val(p + [d], n) == Val(p, n) + Pow(n, |p|) * (d - 1)
  {
    if p != [] {
      assert (p + [d])[1..] == p[1..] + [d];
      ValAppend(p[1..], d, n);
      HornerAppend(n, Val(p[1..], n), Pow(n, |p| - 1), d - 1);
    }
  }

  lemma {:induction false} ExtendElement(ps: seq<seq<nat>>, d: nat, t: seq<nat>)
    ensures t in Extend(ps, d) <==> EndsIn(t, d) && t[..|t| - 1] in ps && !EndsIn(t[..|t| - 1], d)
  {
    if ps != [] {
      ExtendElement(ps[1..], d, t);
      if EndsIn(t, d) {
        assert t == t[..|t| - 1] + [d];
      }
    }
  }

  lemma AppendKeepsOrder(p: seq<nat>, q: seq<nat>, d: nat, n: nat)
    requires |p| == |q| && Val(p, n) < Val(q, n)
    ensures Val(p + [d], n) < Val(q + [d], n)
  {
    ValAppend(p, d, n);
    ValAppend(q, d, n);
  }

  lemma {:induction false} ExtendAscending(ps: seq<seq<nat>>, d: nat, n: nat, len: nat)
    requires Ascending(ps, n) && forall p :: p in ps ==> |p| == len
    ensures Ascending(Extend(ps, d), n)
  {
    if ps != [] {
      var rest := Extend(ps[1..], d);
      ExtendAscending(ps[1..], d, n, len);
      if !EndsIn(ps[0], d) {
        forall k | 0 <= k < |rest|
          ensures Val(ps[0] + [d], n) < Val(rest[k], n)
        {
          var q := ExtendOrigin(ps[1..], d, k);
          AppendKeepsOrder(ps[0], q, d, n);
        }
        assert Extend(ps, d) == [ps[0] + [d]] + rest;
      }
    }
  }

  lemma ExtendOrigin(ps: seq<seq<nat>>, d: nat, k: nat) returns (q: seq<nat>)
    requires k < |Extend(ps, d)|
    ensures Extend(ps, d)[k] == q + [d] && q in ps
  {
    var t := Extend(ps, d)[k];
    ExtendElement(ps, d, t);
    q := t[..|t| - 1];
  }

  lemma {:induction false} AlternatingAppend(t: seq<nat>, n: nat)
    requires t != []
    ensures ValidOrdering(t, n, |t|) <==>
      1 <= t[|t| - 1] <= n && ValidOrdering(t[..|t| - 1], n, |t| - 1) && !EndsIn(t[..|t| - 1], t[|t| - 1])
  {
    var p := t[..|t| - 1];
    assert t == p + [t[|t| - 1]];
    assert Alternating(t) ==> Alternating(p) && !EndsIn(p, t[|t| - 1]);
  }

  /** The list holds exactly the valid orderings, in strictly increasing order (so each once). */
  lemma {:induction false} OrderingsExact(n: nat, len: nat)
    ensures forall t :: t in Orderings(n, len) <==> ValidOrdering(t, n, len)
    ensures Ascending(Orderings(n, len), n)
    decreases len, n + 2
  {
    if len > 0 {
      OrderingsFromExact(n, len, 1);
    }
  }

  ghost predicate Exactly(ts: seq<seq<nat>>, n: nat, len: nat, d: nat)
    requires len >= 1
  {
    forall t :: t in ts <==> ValidOrdering(t, n, len) && t[len - 1] >= d
  }

  /** Prepending the orderings that end in d to those that end in d + 1 or more. */
  lemma OrderingsStep(n: nat, len: nat, d: nat, ps: seq<seq<nat>>, rest: seq<seq<nat>>)
    requires len >= 1 && 1 <= d <= n
    requires forall t :: t in ps <==> ValidOrdering(t, n, len - 1)
    requires Exactly(rest, n, len, d + 1)
    ensures Exactly(Extend(ps, d) + rest, n, len, d)
  {
    forall t
      ensures t in Extend(ps, d) + rest <==> ValidOrdering(t, n, len) && t[len - 1] >= d
    {
      ExtendElement(ps, d, t);
      if t != [] {
        AlternatingAppend(t, n);
      }
    }
  }

  /** The orderings that end in d all come before those that end in d + 1 or more. */
  lemma ConcatAscending(n: nat, len: nat, d: nat, first: seq<seq<nat>>, rest: seq<seq<nat>>)
    requires len >= 1 && Ascending(first, n) && Ascending(rest, n)
    requires forall t :: t in first ==> ValidOrdering(t, n, len) && t[len - 1] == d
    requires forall t :: t in rest ==> ValidOrdering(t, n, len) && t[len - 1] > d
    ensures Ascending(first + rest, n)
  {
    forall k, l | 0 <= k < |first| && 0 <= l < |rest|
      ensures Val(first[k], n) < Val(rest[l], n)
    {
      assert first[k] in first && rest[l] in rest;
      SmallerLastDigit(first[k], rest[l], n);
    }
  }

  /** Extending the valid orderings that do not end in d by d. */
  lemma ExtendValid(ps: seq<seq<nat>>, n: nat, len: nat, d: nat, t: seq<nat>)
    requires len >= 1 && 1 <= d <= n && (forall t :: t in ps <==> ValidOrdering(t, n, len - 1)) && t in Extend(ps, d)
    ensures ValidOrdering(t, n, len) && t[len - 1] == d
  {
    ExtendElement(ps, d, t);
    AlternatingAppend(t, n);
  }

  lemma {:induction false} OrderingsFromExact(n: nat, len: nat, d: nat)
    requires len >= 1 && d >= 1
    ensures Exactly(OrderingsFrom(n, len, d), n, len, d)
    ensures Ascending(OrderingsFrom(n, len, d), n)
    decreases len, if d <= n then n + 1 - d else 0
  {
    hide Ascending, Extend;
    if d <= n {
      var ps := Orderings(n, len - 1);
      var first, rest := Extend(ps, d), OrderingsFrom(n, len, d + 1);
      OrderingsExact(n, len - 1);
      ExtendAscending(ps, d, n, len - 1);
      OrderingsFromExact(n, len, d + 1);
      OrderingsStep(n, len, d, ps, rest);
      forall t | t in first
        ensures ValidOrdering(t, n, len) && t[len - 1] == d
      {
        ExtendValid(ps, n, len, d, t);
      }
      ConcatAscending(n, len, d, first, rest);
    } else {
      NoOrderings(n);
    }
  }

  lemma NoOrderings(n: nat)
    ensures Ascending([], n)
  {
  }

  lemma LastDigitDominates(w: int, p: int, q: int, x: int, y: int)
    requires 0 <= p < w && 0 <= q && x < y
    ensures p + w * (x - 1) < q + w * (y - 1)
  {
    MulMonotone(w, x, y - 1);
    MulDistributes(w, x - 1, 1);
  }

  lemma SmallerLastDigit(s: seq<nat>, t: seq<nat>, n: nat)
    requires |s| == |t| > 0 && InRange(s, n) && InRange(t, n) && s[|s| - 1] < t[|t| - 1]
    ensures Val(s, n) < Val(t, n)
  {
    var p, q, x, y := s[..|s| - 1], t[..|t| - 1], s[|s| - 1], t[|t| - 1];
    assert s == p + [x] && t == q + [y];
    ValAppend(p, x, n);
    ValAppend(q, y, n);
    ValBounds(p, n);
    ValBounds(q, n);
    LastDigitDominates(Pow(n, |p|), Val(p, n), Val(q, n), x, y);
  }

  function CountEndingIn(ps: seq<seq<nat>>, d: nat): nat {
    if ps == [] then 0 else (if EndsIn(ps[0], d) then 1 else 0) + CountEndingIn(ps[1..], d)
  }

  lemma {:induction false} CountConcat(ps: seq<seq<nat>>, qs: seq<seq<nat>>, d: nat)
    ensures CountEndingIn(ps + qs, d) == CountEndingIn(ps, d) + CountEndingIn(qs, d)
  {
    if ps == [] {
      assert ps + qs == qs;
    } else {
      assert (ps + qs)[1..] == ps[1..] + qs;
      CountConcat(ps[1..], qs, d);
    }
  }

  lemma {:induction false} ExtendCount(ps: seq<seq<nat>>, e: nat, d: nat)
    ensures |Extend(ps, e)| == |ps| - CountEndingIn(ps, e)
    ensures CountEndingIn(Extend(ps, e), d) == if e == d then |Extend(ps, e)| else 0
  {
    if ps != [] {
      ExtendCount(ps[1..], e, d);
      var head := if EndsIn(ps[0], e) then [] else [ps[0] + [e]];
      assert Extend(ps, e) == head + Extend(ps[1..], e);
      CountConcat(head, Extend(ps[1..], e), d);
    }
  }

  ghost predicate EachExtendsTo(ps: seq<seq<nat>>, n: nat, c: nat) {
    forall d :: 1 <= d <= n ==> |Extend(ps, d)| == c
  }

  ghost predicate EachEndCounts(ps: seq<seq<nat>>, n: nat, c: nat) {
    forall d :: 1 <= d <= n ==> CountEndingIn(ps, d) == c
  }

  lemma {:induction false} OrderingsFromCount(n: nat, len: nat, e: nat, c: nat)
    requires len >= 1 && 1 <= e <= n + 1 && EachExtendsTo(Orderings(n, len - 1), n, c)
    ensures |OrderingsFrom(n, len, e)| == c * (n + 1 - e)
    decreases n + 1 - e
  {
    if e <= n {
      OrderingsFromCount(n, len, e + 1, c);
      MulDistributes(c, n - e, 1);
    }
  }

  lemma {:induction false} OrderingsFromEndCounts(n: nat, len: nat, e: nat, c: nat, d: nat)
    requires len >= 1 && 1 <= e <= n + 1 && EachExtendsTo(Orderings(n, len - 1), n, c) && 1 <= d <= n
    ensures CountEndingIn(OrderingsFrom(n, len, e), d) == if e <= d then c else 0
    decreases n + 1 - e
  {
    if e <= n {
      OrderingsFromEndCounts(n, len, e + 1, c, d);
      var ps := Orderings(n, len - 1);
      CountConcat(Extend(ps, e), OrderingsFrom(n, len, e + 1), d);
      ExtendCount(ps, e, d);
    }
  }

  lemma OneMoreSegment(n: nat, ncs: nat, c: nat)
    requires n >= 1 && EachExtendsTo(Orderings(n, ncs), n, c)
    ensures |Orderings(n, ncs + 1)| == n * c
    ensures EachEndCounts(Orderings(n, ncs + 1), n, c)
  {
    OrderingsFromCount(n, ncs + 1, 1, c);
    var os := OrderingsFrom(n, ncs + 1, 1);
    forall d | 1 <= d <= n
      ensures CountEndingIn(os, d) == c
    {
      OrderingsFromEndCounts(n, ncs + 1, 1, c, d);
    }
  }

  /** There are n * (n-1)^ncs orderings of ncs + 1 segments, (n-1)^ncs of them ending in each thread. */
  lemma {:induction false} OrderingsCount(n: nat, ncs: nat)
    requires n >= 1
    ensures |Orderings(n, ncs + 1)| == n * Pow(n - 1, ncs)
    ensures EachEndCounts(Orderings(n, ncs + 1), n, Pow(n - 1, ncs))
  {
    if ncs == 0 {
      forall d | 1 <= d <= n
        ensures |Extend([[]], d)| == 1
      {
        assert Extend([[]], d) == [[] + [d]] + Extend([], d);
      }
      OneMoreSegment(n, 0, 1);
    } else {
      OrderingsCount(n, ncs - 1);
      var p := Pow(n - 1, ncs - 1);
      MulDistributes(p, n - 1, 1);
      ExtendsToDifference(Orderings(n, ncs), n, p, (n - 1) * p);
      OneMoreSegment(n, ncs, (n - 1) * p);
    }
  }

  lemma ExtendsToDifference(ps: seq<seq<nat>>, n: nat, p: nat, c: nat)
    requires EachEndCounts(ps, n, p) && |ps| - p == c
    ensures EachExtendsTo(ps, n, c)
  {
    forall d | 1 <= d <= n
      ensures |Extend(ps, d)| == c
    {
      ExtendCount(ps, d, d);
    }
  }

  /** Iterating `next_tid` walks the list: the first call from all ones, each later call, and the last. */
  lemma NextIsSuccessor(n: nat, len: nat, k: nat)
    requires k < |Orderings(n, len)|
    ensures forall t :: IsNext(Orderings(n, len)[k], t, n) ==> k + 1 < |Orderings(n, len)| && t == Orderings(n, len)[k + 1]
    ensures IsLast(Orderings(n, len)[k], n) ==> k + 1 == |Orderings(n, len)|
  {
    var o := Orderings(n, len);
    var s := o[k];
    OrderingsExact(n, len);
    assert s in o;
    forall t | IsNext(s, t, n)
      ensures k + 1 < |o| && t == o[k + 1]
    {
      assert ValidOrdering(t, n, len);
      var j :| 0 <= j < |o| && o[j] == t;
      assert j > k;
      assert o[k + 1] in o;
    }
    if k + 1 < |o| {
      assert o[k + 1] in o;
      assert Val(s, n) < Val(o[k + 1], n);
    }
  }

  /** The converse: short of the last there is a next one. */
  lemma SuccessorExists(n: nat, len: nat, k: nat)
    requires k < |Orderings(n, len)|
    ensures var o := Orderings(n, len); if k + 1 < |o| then IsNext(o[k], o[k + 1], n) else IsLast(o[k], n)
  {
    var o := Orderings(n, len);
    OrderingsExact(n, len);
    assert o[k] in o && (k + 1 < |o| ==> o[k + 1] in o);
    forall u | |u| == |o[k]| && InRange(u, n) && Alternating(u) && Val(o[k], n) < Val(u, n)
      ensures k + 1 < |o| && Val(o[k + 1], n) <= Val(u, n)
    {
      assert ValidOrdering(u, n, len);
      var j :| 0 <= j < |o| && o[j] == u;
      assert j > k;
    }
  }

  lemma FirstOrdering(n: nat, ncs: nat, t: seq<nat>)
    requires ncs >= 1 && n >= 1 && IsNext(Ones(ncs + 1), t, n)
    ensures |Orderings(n, ncs + 1)| > 0 && t == Orderings(n, ncs + 1)[0]
  {
    var o := Orderings(n, ncs + 1);
    OrderingsExact(n, ncs + 1);
    ValOnes(ncs + 1, n);
    assert ValidOrdering(t, n, ncs + 1);
    var j :| 0 <= j < |o| && o[j] == t;
    assert o[0] in o;
    ValBounds(o[0], n);
    assert o[0] != Ones(ncs + 1) by {
      assert o[0][0] != o[0][0 + 1];
    }
    if Val(o[0], n) == 0 {
      ValInjective(Ones(ncs + 1), o[0], n);
    }
  }

  /** There is an ordering to try exactly when there are two functions or more. */
  lemma OrderingExists(n: nat, ncs: nat)
    requires ncs >= 1
    ensures Orderings(n, ncs + 1) != [] <==> n >= 2
  {
    OrderingsExact(n, ncs + 1);
    if n >= 2 {
      assert seq(ncs + 1, i => 1 + i % 2) in Orderings(n, ncs + 1);
    }
    if Orderings(n, ncs + 1) != [] {
      var t := Orderings(n, ncs + 1)[0];
      assert t in Orderings(n, ncs + 1);
      assert t[0] != t[0 + 1];
    }
  }
}
