/** The pair-counting routine count_pairs: for an array assumed sorted in
    ascending order, count the ordered index pairs (i, j) whose elements
    satisfy x*y >= x+y. Elements are exact reals, so no rounding is modelled.

    The binary search only ever asks whether (x, a[j]) satisfies the
    condition, so it is stated over the pattern Row(a, x) of those answers;
    the arithmetic of the condition is confined to a few lemmas about Sat. */
module PairCount {

  /** The condition that count_pairs counts. */
  predicate Sat(x: real, y: real) {
    x * y >= x + y
  }

  ghost predicate Sorted(a: seq<real>) {
    forall p, q :: 0 <= p <= q < |a| ==> a[p] <= a[q]
  }

  /** Which elements of a pair with x: Row(a, x)[j] == Sat(x, a[j]). */
  function Row(a: seq<real>, x: real): seq<bool> {
    seq(|a|, j requires 0 <= j < |a| => Sat(x, a[j]))
  }

  /** Python's a[k] for -len(a) <= k < len(a): a negative index counts from the end. */
  function PyIndex(n: nat, k: int): (j: nat)
    requires 0 <= n + k && k < n
    ensures j < n
    ensures j == k || j == n + k
  {
    if k < 0 then n + k else k
  }

  // ---------------------------------------------------------------------
  // Reference definition: the number of ordered pairs that satisfy Sat.
  // ---------------------------------------------------------------------

  /** Number of true entries of p. */
  function TrueCount(p: seq<bool>): nat {
    if p == [] then 0 else TrueCount(p[..|p| - 1]) + (if p[|p| - 1] then 1 else 0)
  }

  /** Number of ordered pairs (i, j) with i < k, j < |a| and Sat(a[i], a[j]). */
  function PairsUpTo(a: seq<real>, k: nat): nat
    requires k <= |a|
  {
    if k == 0 then 0 else PairsUpTo(a, k - 1) + TrueCount(Row(a, a[k - 1]))
  }

  function PairCount(a: seq<real>): nat {
    PairsUpTo(a, |a|)
  }

  // ---------------------------------------------------------------------
  // The routine as written, stated as functions.
  // ---------------------------------------------------------------------

  /** The probe of a non-empty window [l, r]: Python's l + (r - l) // 2,
      which for l <= r floors the same way as Dafny's division. */
  function Half(l: int, r: int): (m: int)
    requires l <= r
    ensures l <= m <= r
  {
    l + (r - l) / 2
  }

  /** The stopping test of a probe: p[mid] holds and p[mid-1] does not; at
      mid == 0 that is Python's p[-1], the last entry. */
  predicate Stops(p: seq<bool>, mid: int)
    requires 0 <= mid < |p|
  {
    p[mid] && !p[PyIndex(|p|, mid - 1)]
  }

  /** What the inner binary search adds to the count when it starts on the
      window [l, r] and p[j] tells whether the current element pairs with
      a[j]. It stops at the first probed mid that passes the stopping test. */
  function Search(p: seq<bool>, l: int, r: int): (add: nat)
    requires 0 <= l <= r + 1 <= |p|
    decreases r - l + 1
  {
    if l > r then 0
    else
      var mid := Half(l, r);
      if Stops(p, mid) then |p| - mid
      else if !p[mid] then Search(p, mid + 1, r)
      else Search(p, l, mid - 1)
  }

  /** What one iteration of the outer loop adds: n when a[i] pairs with a[0],
      plus whatever the binary search adds (the loop does not skip the search). */
  function RowAdd(a: seq<real>, i: nat): nat
    requires i < |a|
  {
    (if Sat(a[i], a[0]) then |a| else 0) + Search(Row(a, a[i]), 0, |a| - 1)
  }

  /** The count after the first k iterations of the outer loop. */
  function LoopCount(a: seq<real>, k: nat): nat
    requires k <= |a|
  {
    if k == 0 then 0 else LoopCount(a, k - 1) + RowAdd(a, k - 1)
  }

  /** The value count_pairs returns: n*n straight away when a[0] pairs with
      itself, otherwise the count accumulated by the loops. */
  function CountPairsValue(a: seq<real>): nat
    requires |a| > 0
  {
    if Sat(a[0], a[0]) then |a| * |a| else LoopCount(a, |a|)
  }

  /** count_pairs. The input must be non-empty: a[0] is read unconditionally. */
  method CountPairs(arr: seq<real>) returns (count: int)
    requires |arr| > 0
    ensures count == CountPairsValue(arr)
  {
    var n := |arr|;
    count := 0;
    if Sat(arr[0], arr[0]) {
      assert CountPairsValue(arr) == n * n;
      return n * n;
    }
    assert CountPairsValue(arr) == LoopCount(arr, n);
    for i := 0 to n
      invariant count == LoopCount(arr, i)
    {
      ghost var before := count;
      if Sat(arr[i], arr[0]) {
        count := count + n;
      }
      var add := SearchAdd(arr, i);
      count := count + add;
      assert count == before + RowAdd(arr, i);
    }
  }

  /** The answers of a[i] against every element, as a ghost value known
      only pointwise. */
  lemma PairRow(a: seq<real>, i: nat) returns (p: seq<bool>)
    requires i < |a|
    ensures |p| == |a| && forall j :: 0 <= j < |a| ==> p[j] == Sat(a[i], a[j])
  {
    p := Row(a, a[i]);
  }

  /** A sequence of the answers of a[i], pointwise, is Row(a, a[i]). */
  lemma PairRowIs(a: seq<real>, i: nat, p: seq<bool>)
    requires i < |a|
    requires |p| == |a| && forall j :: 0 <= j < |a| ==> p[j] == Sat(a[i], a[j])
    ensures p == Row(a, a[i])
  {
  }

  /** The probe of the window [l, r]: its midpoint and whether a[i] pairs
      with a[mid] and with a[mid-1] (Python's a[-1] at mid == 0). */
  method Probe(a: seq<real>, i: nat, l: int, r: int, ghost p: seq<bool>) returns (mid: int, hit: bool, prevHit: bool)
    requires i < |a| && 0 <= l <= r < |a|
    requires |p| == |a| && forall j :: 0 <= j < |a| ==> p[j] == Sat(a[i], a[j])
    ensures mid == Half(l, r)
    ensures hit == p[mid] && prevHit == p[PyIndex(|a|, mid - 1)]
  {
    mid := Half(l, r);
    var prev := PyIndex(|a|, mid - 1);
    hit := Sat(a[i], a[mid]);
    prevHit := Sat(a[i], a[prev]);
  }

  /** The binary search of one outer iteration, on the window [0, n-1]; it
      returns what the search adds to the count (n - mid on a break, else 0). */
  method SearchAdd(arr: seq<real>, i: nat) returns (add: nat)
    requires i < |arr|
    ensures add == Search(Row(arr, arr[i]), 0, |arr| - 1)
  {
    ghost var p := PairRow(arr, i);
    var n := |arr|;
    var l, r := 0, n - 1;
    add := 0;
    while l <= r
      invariant 0 <= l <= r + 1 <= n
      invariant Search(p, l, r) == Search(p, 0, n - 1)
      decreases r - l
    {
      var mid, hit, prevHit := Probe(arr, i, l, r, p);
      if hit && !prevHit {
        SearchHit(p, l, r);
        add := n - mid;
        break;
      } else if !hit {
        SearchRight(p, l, r);
        l := mid + 1;
      } else {
        SearchLeft(p, l, r);
        r := mid - 1;
      }
    }
    PairRowIs(arr, i, p);
  }

  /** What count_pairs returns: n*n on the early return, which always fires
      for a first element that is not positive; otherwise between 0 and
      2*n*n; and the true pair count on sorted arrays with a positive first
      element. */
  lemma CountPairsFacts(a: seq<real>)
    requires |a| > 0
    ensures Sat(a[0], a[0]) ==> CountPairsValue(a) == |a| * |a|
    ensures a[0] <= 0.0 ==> CountPairsValue(a) == |a| * |a|
    ensures !Sat(a[0], a[0]) ==> 0 <= CountPairsValue(a) <= 2 * |a| * |a|
    ensures Sorted(a) && a[0] > 0.0 ==> CountPairsValue(a) == PairCount(a)
  {
    LoopCountBound(a, |a|);
    CountPairsExactWhenPositive(a);
    EarlyReturnGuard(a[0]);
  }

  // ---------------------------------------------------------------------
  // Facts about the condition x*y >= x+y.
  // ---------------------------------------------------------------------

  /** Once y satisfies the condition with x > 1, every larger y' does. */
  lemma Monotone(x: real, y: real, y': real)
    requires x > 1.0 && y <= y' && Sat(x, y)
    ensures Sat(x, y')
  {
    var d, e := y' - y, x - 1.0;
    assert x * y' - x - y' == (x * y - x - y) + d * e;
    MulNonNegative(d, e);
  }

  lemma MulNonNegative(d: real, e: real)
    requires d >= 0.0 && e >= 0.0
    ensures d * e >= 0.0
  {
  }

  /** For x < 1 monotonicity fails: the boundary value x/(x-1) satisfies the
      condition and the larger value x/(x-1) + 1 does not. */
  lemma NotMonotoneBelowOne(x: real)
    requires x < 1.0
    ensures Sat(x, x / (x - 1.0)) && !Sat(x, x / (x - 1.0) + 1.0)
  {
    var b := x / (x - 1.0);
    assert b * (x - 1.0) == x;
    assert x * b - x - b == b * (x - 1.0) - x;
    assert x * (b + 1.0) - x - (b + 1.0) == (x - 1.0) * (b + 1.0) - x;
  }

  /** A positive element at most 1 pairs with no positive element. */
  lemma NoPartnerUpToOne(x: real, y: real)
    requires 0.0 < x <= 1.0 && y > 0.0
    ensures !Sat(x, y)
  {
    MulNonNegative(y, 1.0 - x);
    assert x * y - x - y == -(y * (1.0 - x)) - x;
  }

  /** The early-return test holds exactly for a first element that is not
      positive or is at least 2. */
  lemma EarlyReturnGuard(x: real)
    ensures Sat(x, x) <==> x <= 0.0 || x >= 2.0
  {
    assert x * x - (x + x) == x * (x - 2.0);
    if x <= 0.0 {
      MulNonNegative(-x, 2.0 - x);
      assert (-x) * (2.0 - x) == x * (x - 2.0);
    } else if x < 2.0 {
      assert x * (x - 2.0) < 0.0;
    } else {
      MulNonNegative(x, x - 2.0);
    }
  }

  /** Two elements both at least 2 always satisfy the condition. */
  lemma FromTwo(x: real, y: real)
    requires x >= 2.0 && y >= 2.0
    ensures Sat(x, y)
  {
    assert x * y - x - y == (x - 1.0) * (y - 1.0) - 1.0;
    assert (x - 1.0) * (y - 1.0) >= 1.0 * (y - 1.0);
  }

  // ---------------------------------------------------------------------
  // The binary search.
  // ---------------------------------------------------------------------

  /** A probe that finds the boundary stops the search. */
  lemma SearchHit(p: seq<bool>, l: int, r: int)
    requires 0 <= l <= r < |p|
    requires p[Half(l, r)] && !p[PyIndex(|p|, Half(l, r) - 1)]
    ensures Search(p, l, r) == |p| - Half(l, r)
  {
  }

  /** A probe that fails moves the window right of it. */
  lemma SearchRight(p: seq<bool>, l: int, r: int)
    requires 0 <= l <= r < |p| && !p[Half(l, r)]
    ensures Search(p, l, r) == Search(p, Half(l, r) + 1, r)
  {
  }

  /** A probe that holds, with a predecessor that holds too, moves the window left of it. */
  lemma SearchLeft(p: seq<bool>, l: int, r: int)
    requires 0 <= l <= r < |p|
    requires p[Half(l, r)] && p[PyIndex(|p|, Half(l, r) - 1)]
    ensures Search(p, l, r) == Search(p, l, Half(l, r) - 1)
  {
  }

  /** The search adds at most the length of the part of p from l on. */
  lemma {:induction false} SearchBound(p: seq<bool>, l: int, r: int)
    requires 0 <= l <= r + 1 <= |p|
    ensures Search(p, l, r) <= |p| - l
    decreases r - l + 1
  {
    if l <= r {
      var m := Half(l, r);
      if p[m] && !p[PyIndex(|p|, m - 1)] {
        SearchHit(p, l, r);
      } else if !p[m] {
        SearchRight(p, l, r);
        SearchBound(p, m + 1, r);
      } else {
        SearchLeft(p, l, r);
        SearchBound(p, l, m - 1);
      }
    }
  }

  /** A non-zero addition is n - mid for a probe mid inside the window where
      p[mid] holds and p[mid-1] (p[-1], the last entry, at mid == 0) fails;
      the lemma returns that probe. */
  lemma {:induction false} SearchStopsAtBoundary(p: seq<bool>, l: int, r: int) returns (mid: int)
    requires 0 <= l <= r + 1 <= |p| && Search(p, l, r) > 0
    ensures l <= mid <= r && Search(p, l, r) == |p| - mid && p[mid] && !p[PyIndex(|p|, mid - 1)]
    decreases r - l + 1
  {
    var m := Half(l, r);
    var prev := PyIndex(|p|, m - 1);
    if p[m] && !p[prev] {
      mid := m;
    } else if !p[m] {
      assert Search(p, l, r) == Search(p, m + 1, r);
      mid := SearchStopsAtBoundary(p, m + 1, r);
    } else {
      assert Search(p, l, r) == Search(p, l, m - 1);
      mid := SearchStopsAtBoundary(p, l, m - 1);
    }
  }

  /** When every entry holds, no probe has a failing predecessor (not even
      p[-1] at mid == 0), so the search adds nothing. */
  lemma {:induction false} SearchAllTrue(p: seq<bool>, l: int, r: int)
    requires 0 <= l <= r + 1 <= |p|
    requires forall j :: 0 <= j < |p| ==> p[j]
    ensures Search(p, l, r) == 0
    decreases r - l + 1
  {
    if l <= r {
      var mid := Half(l, r);
      assert p[PyIndex(|p|, mid - 1)];
      SearchAllTrue(p, l, mid - 1);
    }
  }

  /** When no entry holds, the search moves right until it gives up. */
  lemma {:induction false} SearchAllFalse(p: seq<bool>, l: int, r: int)
    requires 0 <= l <= r + 1 <= |p|
    requires forall j :: 0 <= j < |p| ==> !p[j]
    ensures Search(p, l, r) == 0
    decreases r - l + 1
  {
    if l <= r {
      var mid := Half(l, r);
      SearchAllFalse(p, mid + 1, r);
    }
  }

  /** When exactly the entries from index k on hold (0 < k < n) and the
      window contains k, the search stops at mid == k and adds n - k. */
  lemma {:induction false} SearchFindsBoundary(p: seq<bool>, k: nat, l: int, r: int)
    requires 0 < k < |p|
    requires forall j :: 0 <= j < |p| ==> (p[j] <==> j >= k)
    requires 0 <= l <= k <= r < |p|
    ensures Search(p, l, r) == |p| - k
    decreases r - l + 1
  {
    var mid := Half(l, r);
    if mid < k {
      assert !p[mid];
      SearchRight(p, l, r);
      SearchFindsBoundary(p, k, mid + 1, r);
    } else if mid > k {
      assert p[mid] && p[PyIndex(|p|, mid - 1)];
      SearchLeft(p, l, r);
      SearchFindsBoundary(p, k, l, mid - 1);
    } else {
      assert p[mid] && !p[PyIndex(|p|, mid - 1)];
      SearchHit(p, l, r);
    }
  }

  // ---------------------------------------------------------------------
  // Exactness of count_pairs on sorted arrays with a positive first element.
  // ---------------------------------------------------------------------

  /** Index of the first true entry from j on, or |p|. */
  function FirstTrue(p: seq<bool>, j: nat): (k: nat)
    requires j <= |p|
    ensures j <= k <= |p|
    ensures k < |p| ==> p[k]
    ensures forall t :: j <= t < k ==> !p[t]
    decreases |p| - j
  {
    if j == |p| || p[j] then j else FirstTrue(p, j + 1)
  }

  /** If exactly the entries from index k on hold, |p| - k of them hold. */
  lemma {:induction false} TrueCountSuffix(p: seq<bool>, k: nat)
    requires k <= |p|
    requires forall j :: 0 <= j < |p| ==> (p[j] <==> j >= k)
    ensures TrueCount(p) == |p| - k
  {
    if |p| > k {
      TrueCountSuffix(p[..|p| - 1], k);
    } else if p != [] {
      TrueCountNone(p);
    }
  }

  lemma {:induction false} TrueCountNone(p: seq<bool>)
    requires forall j :: 0 <= j < |p| ==> !p[j]
    ensures TrueCount(p) == 0
  {
    if p != [] {
      TrueCountNone(p[..|p| - 1]);
    }
  }

  /** If exactly the entries from index k on hold, one outer iteration adds
      exactly the number of true entries: the p[0] test and the search never
      both contribute. */
  lemma RowOfSuffix(p: seq<bool>, k: nat)
    requires 0 < |p| && k <= |p|
    requires forall j :: 0 <= j < |p| ==> (p[j] <==> j >= k)
    ensures (if p[0] then |p| else 0) + Search(p, 0, |p| - 1) == TrueCount(p)
  {
    var n := |p|;
    TrueCountSuffix(p, k);
    if k == 0 {
      SearchAllTrue(p, 0, n - 1);
    } else if k == n {
      SearchAllFalse(p, 0, n - 1);
    } else {
      SearchFindsBoundary(p, k, 0, n - 1);
    }
  }

  /** On a sorted array with a positive first element, the elements that pair
      with a[i] form a suffix: none when a[i] <= 1, and for a[i] > 1 all from
      the first one that does. */
  lemma SortedRowIsSuffix(a: seq<real>, i: nat) returns (k: nat)
    requires Sorted(a) && |a| > 0 && a[0] > 0.0 && i < |a|
    ensures k <= |a|
    ensures forall j :: 0 <= j < |a| ==> (Row(a, a[i])[j] <==> j >= k)
  {
    var x, p := a[i], Row(a, a[i]);
    if x <= 1.0 {
      forall j | 0 <= j < |a| ensures !p[j] {
        NoPartnerUpToOne(x, a[j]);
      }
      k := |a|;
    } else {
      k := FirstTrue(p, 0);
      forall j | k <= j < |a| ensures p[j] {
        Monotone(x, a[k], a[j]);
      }
    }
  }

  /** On a sorted array with a positive first element, one outer iteration
      adds exactly the number of elements that pair with a[i]. */
  lemma RowAddExact(a: seq<real>, i: nat)
    requires Sorted(a) && |a| > 0 && a[0] > 0.0 && i < |a|
    ensures RowAdd(a, i) == TrueCount(Row(a, a[i]))
  {
    var k := SortedRowIsSuffix(a, i);
    RowOfSuffix(Row(a, a[i]), k);
  }

  lemma {:induction false} LoopCountExact(a: seq<real>, k: nat)
    requires Sorted(a) && |a| > 0 && a[0] > 0.0 && k <= |a|
    ensures LoopCount(a, k) == PairsUpTo(a, k)
  {
    if k > 0 {
      LoopCountExact(a, k - 1);
      RowAddExact(a, k - 1);
    }
  }

  /** When the array is sorted and its first element is at least 2, every
      ordered pair satisfies the condition, so n*n is the true count. */
  lemma AllPairsFromTwo(a: seq<real>)
    requires Sorted(a) && |a| > 0 && a[0] >= 2.0
    ensures forall i, j :: 0 <= i < |a| && 0 <= j < |a| ==> Sat(a[i], a[j])
    ensures PairCount(a) == |a| * |a|
  {
    forall i, j | 0 <= i < |a| && 0 <= j < |a| ensures Sat(a[i], a[j]) {
      FromTwo(a[i], a[j]);
    }
    PairsUpToFull(a, |a|);
  }

  lemma {:induction false} PairsUpToFull(a: seq<real>, k: nat)
    requires k <= |a|
    requires forall i, j :: 0 <= i < |a| && 0 <= j < |a| ==> Sat(a[i], a[j])
    ensures PairsUpTo(a, k) == k * |a|
  {
    if k > 0 {
      PairsUpToFull(a, k - 1);
      TrueCountSuffix(Row(a, a[k - 1]), 0);
      assert (k - 1) * |a| + |a| == k * |a|;
    }
  }

  /** count_pairs returns the true number of satisfying ordered pairs for every
      sorted array whose first element is positive. */
  lemma CountPairsExactWhenPositive(a: seq<real>)
    requires |a| > 0
    ensures Sorted(a) && a[0] > 0.0 ==> CountPairsValue(a) == PairCount(a)
  {
    if Sorted(a) && a[0] > 0.0 {
      if Sat(a[0], a[0]) {
        EarlyReturnGuard(a[0]);
        AllPairsFromTwo(a);
      } else {
        LoopCountExact(a, |a|);
      }
    }
  }

  /** With a first element of 0 the early return fires although the pairs
      (0.5, 0.5), (0, 0.5) and (0.5, 0) fail: count_pairs([0, 0.5]) is 4 while
      only one ordered pair satisfies the condition. */
  lemma EarlyReturnWrongAtZero()
    ensures CountPairsValue([0.0, 0.5]) == 4
    ensures PairCount([0.0, 0.5]) == 1
  {
    var a := [0.0, 0.5];
    assert Sat(a[0], a[0]);
    var p0, p1 := Row(a, a[0]), Row(a, a[1]);
    assert p0 == [true, false] && p1 == [false, false];
    assert p0[..1] == [true] && p1[..1] == [false];
    assert [true][..0] == [] && [false][..0] == [];
    assert TrueCount([true]) == 1 && TrueCount([false]) == 0;
    assert TrueCount(p0) == 1 && TrueCount(p1) == 0;
    assert PairsUpTo(a, 1) == 1;
  }

  /** Each outer iteration adds at most 2n: n from the a[0] test and at most n from the search. */
  lemma RowAddBound(a: seq<real>, i: nat)
    requires i < |a|
    ensures RowAdd(a, i) <= 2 * |a|
  {
    SearchBound(Row(a, a[i]), 0, |a| - 1);
  }

  lemma StepBound(x: int, y: int, m: int, k: int)
    requires x <= m * (k - 1) && y <= m
    ensures x + y <= m * k
  {
    assert m * (k - 1) + m == m * k;
  }

  /** The count never exceeds 2n per outer iteration. */
  lemma {:induction false} LoopCountBound(a: seq<real>, k: nat)
    requires k <= |a|
    ensures LoopCount(a, k) <= 2 * |a| * k
  {
    if k > 0 {
      LoopCountBound(a, k - 1);
      RowAddBound(a, k - 1);
      StepBound(LoopCount(a, k - 1), RowAdd(a, k - 1), 2 * |a|, k);
    }
  }
}
