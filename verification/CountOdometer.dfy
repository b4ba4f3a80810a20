/** interleaver.c: the instruction counts of `run_interleavings`, an odometer whose digit bounds are found by running. */
module CountOdometer {
  import opened Arithmetic
  import opened TidOdometer

  ghost predicate Positive(c: seq<nat>) {
    forall i :: 0 <= i < |c| ==> c[i] >= 1
  }

  /** Lexicographic order, first count most significant. */
  ghost predicate Less(c: seq<nat>, d: seq<nat>)
    requires |c| == |d|
    decreases |c|
  {
    c != [] && (c[0] < d[0] || (c[0] == d[0] && Less(c[1..], d[1..])))
  }

  /** The counts after a probe that completed k > 0 switches. */
  function Advance(c: seq<nat>, k: nat): seq<nat>
    requires 1 <= k <= |c|
  {
    c[..k - 1] + [c[k - 1] + 1] + Ones(|c| - k)
  }

  /** The first position where c and d differ, if c is less. */
  lemma {:induction false} LessAt(c: seq<nat>, d: seq<nat>) returns (i: nat)
    requires |c| == |d| && Less(c, d)
    ensures i < |c| && c[..i] == d[..i] && c[i] < d[i]
    decreases |c|
  {
    if c[0] < d[0] {
      i := 0;
    } else {
      var j := LessAt(c[1..], d[1..]);
      i := j + 1;
      assert c[..i] == [c[0]] + c[1..][..j] && d[..i] == [d[0]] + d[1..][..j];
    }
  }

  lemma {:induction false} LessFrom(c: seq<nat>, d: seq<nat>, i: nat)
    requires |c| == |d| && i < |c| && c[..i] == d[..i] && c[i] < d[i]
    ensures Less(c, d)
    decreases |c|
  {
    if i > 0 {
      assert c[0] == c[..i][0] == d[..i][0] == d[0];
      assert c[1..][..i - 1] == c[..i][1..] == d[..i][1..] == d[1..][..i - 1];
      LessFrom(c[1..], d[1..], i - 1);
    }
  }

  lemma {:induction false} LessTotal(c: seq<nat>, d: seq<nat>)
    requires |c| == |d|
    ensures c == d || Less(c, d) || Less(d, c)
    ensures !(Less(c, d) && (c == d || Less(d, c)))
    decreases |c|
  {
    if c != [] {
      LessTotal(c[1..], d[1..]);
      assert c == [c[0]] + c[1..] && d == [d[0]] + d[1..];
    }
  }

  lemma LessTransitive(c: seq<nat>, d: seq<nat>, e: seq<nat>)
    requires |c| == |d| == |e| && Less(c, d) && Less(d, e)
    ensures Less(c, e)
  {
    var i := LessAt(c, d);
    var j := LessAt(d, e);
    var m := if i < j then i else j;
    assert c[..m] == d[..m] == e[..m] by {
      assert c[..m] == c[..i][..m] && d[..m] == d[..i][..m] && d[..m] == d[..j][..m] && e[..m] == e[..j][..m];
    }
    assert i < j ==> d[i] == d[..j][i] == e[..j][i] == e[i];
    assert j < i ==> c[j] == c[..i][j] == d[..i][j] == d[j];
    LessFrom(c, e, m);
  }

  /** Every vector of counts is all ones or above it. */
  lemma {:induction false} OnesLeast(d: seq<nat>)
    requires Positive(d)
    ensures d == Ones(|d|) || Less(Ones(|d|), d)
    decreases |d|
  {
    if d != [] {
      OnesLeast(d[1..]);
      assert Ones(|d|)[1..] == Ones(|d| - 1) && d == [d[0]] + d[1..];
      if d[0] == 1 && d[1..] == Ones(|d| - 1) {
        assert d == Ones(|d|);
      }
    }
  }

  lemma AdvanceIsGreater(c: seq<nat>, k: nat)
    requires 1 <= k <= |c|
    ensures Less(c, Advance(c, k)) && |Advance(c, k)| == |c|
    ensures Positive(c) ==> Positive(Advance(c, k))
  {
    assert c[..k - 1] == Advance(c, k)[..k - 1];
    LessFrom(c, Advance(c, k), k - 1);
  }

  /** A sequence first above c at position i < k is at or above the successor of c. */
  lemma EarlyDifference(c: seq<nat>, k: nat, d: seq<nat>, i: nat)
    requires |c| == |d| && 1 <= k <= |c| && i < k && Positive(d)
    requires c[..i] == d[..i] && c[i] < d[i]
    ensures !Less(d, Advance(c, k))
  {
    var e := Advance(c, k);
    assert c[..i] == e[..i];
    LessTotal(d, e);
    if e[i] < d[i] {
      LessFrom(e, d, i);
    } else {
      // d agrees with its bound through k - 1, where the bound continues with ones
      assert i == k - 1;
      assert e[..k] == e[..i] + [e[i]] && d[..k] == d[..i] + [d[i]];
      TailOfOnes(e, d, k);
    }
  }

  /** Whatever lies strictly between c and its successor agrees with c up to k and asks for no fewer in segment k. */
  lemma BetweenSharesPrefix(c: seq<nat>, k: nat, d: seq<nat>)
    requires |c| == |d| && k <= |c| && Less(c, d) && Positive(c) && Positive(d)
    requires k > 0 ==> Less(d, Advance(c, k))
    ensures k < |c| && d[..k] == c[..k] && d[k] >= c[k]
  {
    hide Less, Advance;
    var i := LessAt(c, d);
    if i < k {
      EarlyDifference(c, k, d, i);
    }
    assert d[..k] == d[..i][..k] && c[..k] == c[..i][..k];
    assert i > k ==> c[k] == c[..i][k] == d[..i][k] == d[k];
  }

  lemma {:induction false} TailOfOnes(e: seq<nat>, d: seq<nat>, k: nat)
    requires |e| == |d| && k <= |e| && e[..k] == d[..k] && e[k..] == Ones(|e| - k) && Positive(d)
    ensures e == d || Less(e, d)
    decreases |e|
  {
    if k == 0 {
      assert e[0..] == e;
      OnesLeast(d);
    } else {
      assert e[0] == e[..k][0] == d[..k][0] == d[0];
      assert e[1..][..k - 1] == e[..k][1..] == d[..k][1..] == d[1..][..k - 1];
      assert e[1..][k - 1..] == e[k..];
      TailOfOnes(e[1..], d[1..], k - 1);
      assert e == [e[0]] + e[1..] && d == [d[0]] + d[1..];
    }
  }

  // ---- termination: a number that every advance lowers ----

  ghost predicate Within(c: seq<nat>, top: nat) {
    forall i :: 0 <= i < |c| ==> 1 <= c[i] <= top
  }

  /** How many vectors over 1..top lie above c. */
  ghost function Left(c: seq<nat>, top: nat): int
    decreases |c|
  {
    if c == [] then 0 else (top - c[0]) * Pow(top, |c| - 1) + Left(c[1..], top)
  }

  lemma PowOf(b: nat, e: nat)
    ensures Pow(b, e) == if e == 0 then 1 else b * Pow(b, e - 1)
  {
  }

  lemma {:induction false} LeftBounds(c: seq<nat>, top: nat)
    requires Within(c, top)
    ensures 0 <= Left(c, top) < Pow(top, |c|)
    decreases |c|
  {
    hide Pow;
    if c != [] {
      LeftBounds(c[1..], top);
      PowOf(top, |c|);
      HornerBounds(Pow(top, |c| - 1), Left(c[1..], top), top - c[0], top);
    } else {
      PowOf(top, 0);
    }
  }

  lemma DigitDominates(w: nat, x: int, y: int, p: nat, q: nat)
    requires y < x && q < w
    ensures y * w + q < x * w + p
  {
    MulMonotone(w, y + 1, x);
    MulDistributes(w, y, 1);
  }

  lemma LeftOf(c: seq<nat>, top: nat)
    requires c != []
    ensures Left(c, top) == (top - c[0]) * Pow(top, |c| - 1) + Left(c[1..], top)
  {
  }

  lemma {:induction false} LeftDecreases(c: seq<nat>, d: seq<nat>, top: nat)
    requires |c| == |d| && Less(c, d) && Within(c, top) && Within(d, top)
    ensures Left(d, top) < Left(c, top)
    decreases |c|
  {
    hide Left, Pow;
    LeftOf(c, top);
    LeftOf(d, top);
    if c[0] == d[0] {
      LeftDecreases(c[1..], d[1..], top);
    } else {
      LeftBounds(c[1..], top);
      LeftBounds(d[1..], top);
      DigitDominates(Pow(top, |c| - 1), top - c[0], top - d[0], Left(c[1..], top), Left(d[1..], top));
    }
  }

  method AdvanceInPlace(instrNums: array<nat>, k: nat)
    requires 1 <= k <= instrNums.Length
    modifies instrNums
    ensures instrNums[..] == Advance(old(instrNums[..]), k)
  {
    ghost var c := instrNums[..];
    instrNums[k - 1] := instrNums[k - 1] + 1;
    if k < instrNums.Length {
      for i := k to instrNums.Length
        invariant forall j :: 0 <= j < instrNums.Length ==>
          instrNums[j] == if j < k - 1 || j >= i then c[j] else if j == k - 1 then c[j] + 1 else 1
      {
        instrNums[i] := 1;
      }
    }
  }

  method Reset(a: array<nat>)
    modifies a
    ensures a[..] == Ones(a.Length)
  {
    for i := 0 to a.Length
      invariant forall j :: 0 <= j < i ==> a[j] == 1
    {
      a[i] := 1;
    }
  }
}
