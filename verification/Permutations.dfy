/** permutations.c: the backtracking enumeration of serial orders. */
module Permutations {
  import opened Sequences

  function Swap(a: seq<int>, i: nat, j: nat): (r: seq<int>)
    requires i < |a| && j < |a|
  {
    a[i := a[j]][j := a[i]]
  }

  /** The rows appended by `permute(itl, a, start, |a| - 1, count)`, in the order they are appended. */
  function Rows(a: seq<int>, start: nat): seq<seq<int>>
    requires start <= |a|
    decreases |a| - start, |a| + 1
  {
    if start + 1 == |a| then [a] else RowsFrom(a, start, start)
  }

  /** What iterations i..end of the loop of `permute` append. */
  function RowsFrom(a: seq<int>, start: nat, i: nat): seq<seq<int>>
    requires start <= i <= |a| && start + 1 != |a|
    decreases |a| - start, |a| - i
  {
    if i == |a| then [] else Rows(Swap(a, start, i), start + 1) + RowsFrom(a, start, i + 1)
  }

  function Fact(n: nat): nat {
    if n == 0 then 1 else n * Fact(n - 1)
  }

  /** p rearranges a and agrees with it before `start`. */
  ghost predicate Arrangement(p: seq<int>, a: seq<int>, start: nat)
    requires start <= |a|
  {
    |p| == |a| && multiset(p) == multiset(a) && p[..start] == a[..start]
  }

  lemma SwapIsArrangement(a: seq<int>, start: nat, i: nat)
    requires start <= i < |a|
    ensures Arrangement(Swap(a, start, i), a, start)
  {
  }

  lemma {:induction false} RowsCount(a: seq<int>, start: nat)
    requires start < |a|
    ensures |Rows(a, start)| == Fact(|a| - start)
    decreases |a| - start, |a| + 1
  {
    if start + 1 == |a| {
      assert Fact(1) == 1 * Fact(0);
    } else {
      RowsFromCount(a, start, start);
    }
  }

  lemma {:induction false} RowsFromCount(a: seq<int>, start: nat, i: nat)
    requires start <= i <= |a| && start + 1 < |a|
    ensures |RowsFrom(a, start, i)| == (|a| - i) * Fact(|a| - start - 1)
    decreases |a| - start, |a| - i
  {
    if i < |a| {
      var f := Fact(|a| - start - 1);
      RowsCount(Swap(a, start, i), start + 1);
      RowsFromCount(a, start, i + 1);
      assert f + (|a| - i - 1) * f == (|a| - i) * f;
    }
  }

  /** Soundness: every appended row is an arrangement of a that keeps the first `start` entries. */
  lemma {:induction false} RowIsArrangement(a: seq<int>, start: nat, p: seq<int>)
    requires start <= |a| && p in Rows(a, start)
    ensures Arrangement(p, a, start)
    decreases |a| - start, |a| + 1
  {
    if start + 1 != |a| {
      var i := RowOrigin(a, start, start, p);
    }
  }

  /** A row appended by iterations i.. of the loop comes from one of them, which put its entry at `start`. */
  lemma {:induction false} RowOrigin(a: seq<int>, start: nat, i: nat, p: seq<int>) returns (j: nat)
    requires start <= i <= |a| && start + 1 != |a| && p in RowsFrom(a, start, i)
    ensures i <= j < |a| && Arrangement(p, a, start) && p[start] == a[j]
    decreases |a| - start, |a| - i
  {
    var b := Swap(a, start, i);
    if p in Rows(b, start + 1) {
      j := i;
      RowIsArrangement(b, start + 1, p);
      SwapIsArrangement(a, start, i);
      assert p[start] == p[..start + 1][start] == b[..start + 1][start];
      assert p[..start] == p[..start + 1][..start] == b[..start + 1][..start] == b[..start];
    } else {
      j := RowOrigin(a, start, i + 1, p);
    }
  }

  lemma SameTail(p: seq<int>, a: seq<int>, start: nat)
    requires start <= |a| && Arrangement(p, a, start)
    ensures multiset(p[start..]) == multiset(a[start..])
  {
    assert p == p[..start] + p[start..] && a == a[..start] + a[start..];
    assert multiset(p[start..]) == multiset(p) - multiset(p[..start]);
    assert multiset(a[start..]) == multiset(a) - multiset(a[..start]);
  }

  /** The entry an arrangement puts at `start` is one that the loop of `permute` swaps there. */
  lemma LocateEntry(p: seq<int>, a: seq<int>, start: nat) returns (i: nat)
    requires start < |a| && Arrangement(p, a, start)
    ensures start <= i < |a| && a[i] == p[start]
  {
    SameTail(p, a, start);
    assert p[start..][0] in multiset(p[start..]);
    assert p[start] in a[start..];
    var k :| 0 <= k < |a[start..]| && a[start..][k] == p[start];
    i := start + k;
  }

  /** Completeness: every arrangement that keeps the first `start` entries is appended. */
  lemma {:induction false} RowsAreComplete(a: seq<int>, start: nat, p: seq<int>)
    requires start < |a| && Arrangement(p, a, start)
    ensures p in Rows(a, start)
    decreases |a| - start
  {
    var i := LocateEntry(p, a, start);
    if start + 1 == |a| {
      assert p == p[..start] + [p[start]] && a == a[..start] + [a[start]];
    } else {
      var b := Swap(a, start, i);
      assert Arrangement(p, b, start + 1) by {
        SwapIsArrangement(a, start, i);
        assert p[..start + 1] == p[..start] + [p[start]];
        assert b[..start + 1] == b[..start] + [b[start]];
      }
      RowsAreComplete(b, start + 1, p);
      InRowsFrom(a, start, start, i, p);
    }
  }

  lemma {:induction false} InRowsFrom(a: seq<int>, start: nat, i: nat, j: nat, p: seq<int>)
    requires start <= i <= j < |a| && start + 1 != |a|
    requires p in Rows(Swap(a, start, j), start + 1)
    ensures p in RowsFrom(a, start, i)
    decreases j - i
  {
    if i < j {
      InRowsFrom(a, start, i + 1, j, p);
    }
  }

  /** With distinct entries no row is appended twice. */
  lemma {:induction false} RowsNoRepeats(a: seq<int>, start: nat)
    requires start <= |a| && Distinct(a)
    ensures Distinct(Rows(a, start))
    decreases |a| - start, |a| + 1
  {
    if start + 1 != |a| {
      RowsFromNoRepeats(a, start, start);
    }
  }

  lemma {:induction false} RowsFromNoRepeats(a: seq<int>, start: nat, i: nat)
    requires start <= i <= |a| && start + 1 != |a| && Distinct(a)
    ensures Distinct(RowsFrom(a, start, i))
    decreases |a| - start, |a| - i
  {
    if i < |a| {
      var b := Swap(a, start, i);
      RowsNoRepeats(b, start + 1);
      RowsFromNoRepeats(a, start, i + 1);
      var first, rest := Rows(b, start + 1), RowsFrom(a, start, i + 1);
      forall k, l | 0 <= k < |first| && 0 <= l < |rest|
        ensures first[k] != rest[l]
      {
        var p := first[k];
        RowIsArrangement(b, start + 1, p);
        assert p[start] == p[..start + 1][start] == b[..start + 1][start] == a[i];
        var j := RowOrigin(a, start, i + 1, rest[l]);
      }
    }
  }

  // ---- the code ----

  function Row(itl: array2<int>, r: nat): (s: seq<int>)
    requires r < itl.Length0
    reads itl
    ensures |s| == itl.Length1 && forall k :: 0 <= k < |s| ==> s[k] == itl[r, k]
  {
    seq(itl.Length1, k requires 0 <= k < itl.Length1 reads itl => itl[r, k])
  }

  method SwapInPlace(a: array<int>, i: nat, j: nat)
    requires i < a.Length && j < a.Length
    modifies a
    ensures a[..] == Swap(old(a[..]), i, j)
  {
    var temp := a[i];
    a[i] := a[j];
    a[j] := temp;
  }

  method Permute(itl: array2<int>, arr: array<int>, start: nat, count0: nat) returns (count: nat)
    requires start <= arr.Length == itl.Length1
    requires count0 + |Rows(arr[..], start)| <= itl.Length0
    modifies itl, arr
    ensures arr[..] == old(arr[..])
    ensures count == count0 + |Rows(old(arr[..]), start)|
    ensures forall r :: count0 <= r < count ==> Row(itl, r) == Rows(old(arr[..]), start)[r - count0]
    ensures forall r, c :: 0 <= r < itl.Length0 && !(count0 <= r < count) && 0 <= c < itl.Length1
              ==> itl[r, c] == old(itl[r, c])
    decreases arr.Length - start
  {
    ghost var a := arr[..];
    count := count0;
    if start + 1 == arr.Length {
      for i := 0 to arr.Length
        invariant arr[..] == a
        invariant forall c :: 0 <= c < i ==> itl[count, c] == a[c]
        invariant forall r, c :: 0 <= r < itl.Length0 && r != count && 0 <= c < itl.Length1
                    ==> itl[r, c] == old(itl[r, c])
      {
        itl[count, i] := arr[i];
      }
      assert Row(itl, count) == a;
      count := count + 1;
    } else {
      for i := start to arr.Length
        invariant arr[..] == a
        invariant count0 <= count
        invariant count + |RowsFrom(a, start, i)| == count0 + |Rows(a, start)|
        invariant forall r :: count0 <= r < count ==> Row(itl, r) == Rows(a, start)[r - count0]
        invariant Rows(a, start)[count - count0..] == RowsFrom(a, start, i)
        invariant forall r, c :: 0 <= r < itl.Length0 && !(count0 <= r < count) && 0 <= c < itl.Length1
                    ==> itl[r, c] == old(itl[r, c])
      {
        ghost var before := count;
        ghost var sub := Rows(Swap(a, start, i), start + 1);
        ghost var all := Rows(a, start);
        ghost var rest := RowsFrom(a, start, i + 1);
        assert all[before - count0..] == sub + rest;
        label L:
        ghost var done := seq(before - count0, k requires 0 <= k < before - count0 reads itl => Row(itl, count0 + k));
        SwapInPlace(arr, start, i);
        count := Permute(itl, arr, start + 1, count);
        SwapInPlace(arr, start, i);
        forall r | count0 <= r < before
          ensures Row(itl, r) == all[r - count0]
        {
          assert Row(itl, r) == old@L(Row(itl, r));
        }
        forall r | before <= r < count
          ensures Row(itl, r) == all[r - count0]
        {
          assert all[r - count0] == all[before - count0..][r - before] == sub[r - before];
        }
        assert all[count - count0..] == all[before - count0..][|sub|..] == rest;
      }
    }
  }

  method Factorial(n: nat) returns (fact: nat)
    ensures fact == Fact(n)
  {
    if n == 0 { return 1; }
    fact := 1;
    for i := 1 to n + 1
      invariant fact == Fact(i - 1)
    {
      fact := fact * i;
    }
  }

  /** `arr[i] = i` for i < n: the order in which the functions were registered. */
  function Iota(n: nat): (r: seq<int>)
    ensures |r| == n && forall i :: 0 <= i < n ==> r[i] == i
  {
    seq(n, i => i)
  }

  function SerialOrders(n: nat): seq<seq<int>> {
    Rows(Iota(n), 0)
  }

  predicate IsSerialOrder(p: seq<int>, n: nat) {
    |p| == n && multiset(p) == multiset(Iota(n))
  }

  /** Every serial order once each, and nothing else; and the rows allocated are all filled exactly when n >= 1. */
  lemma SerialOrdersExact(n: nat)
    ensures |SerialOrders(n)| == Fact(n) <==> n >= 1
    ensures Distinct(SerialOrders(n))
    ensures n >= 1 ==> forall p :: p in SerialOrders(n) <==> IsSerialOrder(p, n)
  {
    var a := Iota(n);
    RowsNoRepeats(a, 0);
    if n >= 1 {
      RowsCount(a, 0);
      forall p | p in SerialOrders(n)
        ensures IsSerialOrder(p, n)
      {
        RowIsArrangement(a, 0, p);
      }
      forall p | IsSerialOrder(p, n)
        ensures p in SerialOrders(n)
      {
        assert p[..0] == a[..0];
        RowsAreComplete(a, 0, p);
      }
    }
  }

  /** `factorial` returns a 32-bit `int`; it can hold the result exactly up to twelve functions. */
  lemma {:induction false} FactorialFitsInt(n: nat)
    ensures Fact(n) < 0x8000_0000 <==> n <= 12
    decreases n
  {
    if n <= 13 {
      assert Fact(5) == 120;
      assert Fact(9) == 362880;
      assert Fact(13) == 6227020800;
    } else {
      FactorialFitsInt(n - 1);
      assert n * Fact(n - 1) >= Fact(n - 1);
    }
  }

  method GetFuncPermutations(n: nat) returns (itl: array2<int>)
    ensures fresh(itl) && itl.Length0 == Fact(n) && itl.Length1 == n
    ensures n >= 1 ==> |SerialOrders(n)| == Fact(n) && forall r :: 0 <= r < Fact(n) ==> Row(itl, r) == SerialOrders(n)[r]
  {
    var numPerms := Factorial(n);
    itl := new int[numPerms, n];
    var arr := new int[n](i => i);
    assert arr[..] == Iota(n);
    if n >= 1 {
      RowsCount(Iota(n), 0);
    }
    var count := Permute(itl, arr, 0, 0);
  }
}
