/** `combinations` / `combineHelper`: every way of choosing `k` of the points,
    produced by a depth-first search that fixes the smallest index first. The
    Java code threads one mutable `current` list through the recursion; here
    that buffer is the prefix argument `current`, which each call extends by
    value. */
module Subsets {

  /** The binomial coefficient by Pascal's rule; zero when `k < 0` or `k > n`. */
  function Choose(n: nat, k: int): nat
  {
    if k < 0 then 0
    else if k == 0 then 1
    else if n == 0 then 0
    else Choose(n - 1, k - 1) + Choose(n - 1, k)
  }

  function Factorial(n: nat): (r: nat)
    ensures r >= 1
  {
    if n == 0 then 1 else n * Factorial(n - 1)
  }

  /* ---------- The model of the Java recursion ---------- */

  /** `combineHelper(points, start, k, current, result)`: the lists it appends
      to `result`, in order. A full buffer is copied out; otherwise each index
      `i` from `start` on is tried in turn. */
  function CombineHelper<T>(points: seq<T>, start: nat, k: int, current: seq<T>): seq<seq<T>>
    decreases |points| - start, 1
  {
    if |current| == k then [current]
    else CombineLoop(points, start, k, current)
  }

  /** The `for (int i = start; ...)` loop of `combineHelper`, from index `i` on:
      add `points[i]`, recurse from `i + 1`, remove it again. */
  function CombineLoop<T>(points: seq<T>, i: nat, k: int, current: seq<T>): seq<seq<T>>
    decreases |points| - i, 0
  {
    if i >= |points| then []
    else CombineHelper(points, i + 1, k, current + [points[i]]) + CombineLoop(points, i + 1, k, current)
  }

  /* ---------- Index selections: the reference the model is measured against ---------- */

  predicate Increasing(t: seq<nat>)
  {
    forall a, b :: 0 <= a < b < |t| ==> t[a] < t[b]
  }

  /** `t` picks `m` distinct indices of `[lo, n)` in increasing order. */
  predicate IsSelection(t: seq<nat>, lo: nat, n: nat, m: nat)
  {
    |t| == m && Increasing(t) && forall a :: 0 <= a < |t| ==> lo <= t[a] < n
  }

  /** Strict lexicographic order on index tuples. */
  predicate LexLess(t: seq<nat>, u: seq<nat>)
  {
    |t| > 0 && |u| > 0 && (t[0] < u[0] || (t[0] == u[0] && LexLess(t[1..], u[1..])))
  }

  /** `[i] + t` for every `t` in `ts`. */
  function Lift(i: nat, ts: seq<seq<nat>>): (r: seq<seq<nat>>)
    ensures |r| == |ts|
    ensures forall j :: 0 <= j < |r| ==> r[j] == [i] + ts[j]
  {
    seq(|ts|, j requires 0 <= j < |ts| => [i] + ts[j])
  }

  /** All increasing `m`-tuples of indices in `[lo, n)`, smallest first
      element first. */
  function Selections(n: nat, lo: nat, m: nat): (r: seq<seq<nat>>)
    ensures forall j :: 0 <= j < |r| ==> IsSelection(r[j], lo, n, m)
    decreases n - lo, 1
  {
    if m == 0 then [[]] else SelectionsFrom(n, lo, m)
  }

  /** The increasing `m`-tuples (`m > 0`) whose first index is at least `i`. */
  function SelectionsFrom(n: nat, i: nat, m: nat): (r: seq<seq<nat>>)
    requires m > 0
    ensures forall j :: 0 <= j < |r| ==> IsSelection(r[j], i, n, m)
    decreases n - i, 0
  {
    if i >= n then []
    else Lift(i, Selections(n, i + 1, m - 1)) + SelectionsFrom(n, i + 1, m)
  }

  /** The points an index tuple picks, in tuple order. */
  function Image<T>(points: seq<T>, t: seq<nat>): (r: seq<T>)
    requires forall a :: 0 <= a < |t| ==> t[a] < |points|
    ensures |r| == |t|
    ensures forall a :: 0 <= a < |t| ==> r[a] == points[t[a]]
  {
    seq(|t|, a requires 0 <= a < |t| => points[t[a]])
  }

  predicate IndicesBelow(ts: seq<seq<nat>>, n: nat)
  {
    forall j, a :: 0 <= j < |ts| && 0 <= a < |ts[j]| ==> ts[j][a] < n
  }

  /** `current + Image(points, t)` for every tuple `t` of `ts`. */
  function Extend<T>(points: seq<T>, current: seq<T>, ts: seq<seq<nat>>): (r: seq<seq<T>>)
    requires IndicesBelow(ts, |points|)
    ensures |r| == |ts|
    ensures forall j :: 0 <= j < |r| ==> r[j] == current + Image(points, ts[j])
  {
    seq(|ts|, j requires 0 <= j < |ts| => current + Image(points, ts[j]))
  }

  /* ---------- The model computes the images of the selections ---------- */

  lemma ExtendConcat<T>(points: seq<T>, current: seq<T>, xs: seq<seq<nat>>, ys: seq<seq<nat>>)
    requires IndicesBelow(xs, |points|) && IndicesBelow(ys, |points|)
    ensures IndicesBelow(xs + ys, |points|)
    ensures Extend(points, current, xs + ys) == Extend(points, current, xs) + Extend(points, current, ys)
  {
    var zs := xs + ys;
    assert forall j :: 0 <= j < |xs| ==> zs[j] == xs[j];
    assert forall j :: |xs| <= j < |zs| ==> zs[j] == ys[j - |xs|];
  }

  lemma ExtendLift<T>(points: seq<T>, current: seq<T>, i: nat, ts: seq<seq<nat>>)
    requires i < |points| && IndicesBelow(ts, |points|)
    ensures IndicesBelow(Lift(i, ts), |points|)
    ensures Extend(points, current + [points[i]], ts) == Extend(points, current, Lift(i, ts))
  {
    var l := Lift(i, ts);
    assert IndicesBelow(l, |points|) by {
      forall j, a | 0 <= j < |l| && 0 <= a < |l[j]| ensures l[j][a] < |points| {
        if a > 0 { assert l[j][a] == ts[j][a - 1]; }
      }
    }
    var lhs := Extend(points, current + [points[i]], ts);
    var rhs := Extend(points, current, l);
    forall j | 0 <= j < |ts| ensures lhs[j] == rhs[j] {
      assert Image(points, [i] + ts[j]) == [points[i]] + Image(points, ts[j]);
    }
  }

  lemma {:induction false} HelperSelects<T>(points: seq<T>, start: nat, k: int, current: seq<T>)
    requires start <= |points| && |current| <= k
    ensures IndicesBelow(Selections(|points|, start, k - |current|), |points|)
    ensures CombineHelper(points, start, k, current)
            == Extend(points, current, Selections(|points|, start, k - |current|))
    decreases |points| - start, 1
  {
    if |current| == k {
      var e := Extend(points, current, Selections(|points|, start, 0));
      assert Image(points, []) == [];
      assert current + [] == current;
      assert |e| == 1 && e[0] == current + Image(points, []);
      assert e == [current];
    } else {
      LoopSelects(points, start, k, current);
    }
  }

  lemma {:induction false} LoopSelects<T>(points: seq<T>, i: nat, k: int, current: seq<T>)
    requires i <= |points| && |current| < k
    ensures IndicesBelow(SelectionsFrom(|points|, i, k - |current|), |points|)
    ensures CombineLoop(points, i, k, current)
            == Extend(points, current, SelectionsFrom(|points|, i, k - |current|))
    decreases |points| - i, 0
  {
    var n, m := |points|, k - |current|;
    if i < n {
      var inner := Selections(n, i + 1, m - 1);
      var rest := SelectionsFrom(n, i + 1, m);
      var longer := current + [points[i]];
      assert k - |longer| == m - 1;
      HelperSelects(points, i + 1, k, longer);
      ExtendLift(points, current, i, inner);
      LoopSelects(points, i + 1, k, current);
      ExtendConcat(points, current, Lift(i, inner), rest);
      calc {
        CombineLoop(points, i, k, current);
        CombineHelper(points, i + 1, k, longer) + CombineLoop(points, i + 1, k, current);
        Extend(points, longer, inner) + Extend(points, current, rest);
        Extend(points, current, Lift(i, inner)) + Extend(points, current, rest);
        Extend(points, current, Lift(i, inner) + rest);
        { assert SelectionsFrom(n, i, m) == Lift(i, inner) + rest; }
        Extend(points, current, SelectionsFrom(n, i, m));
      }
    }
  }

  /** When the buffer already holds more than `k` points (only possible for a
      negative `k`) nothing is ever emitted. */
  lemma {:induction false} OverfullEmitsNothing<T>(points: seq<T>, i: nat, k: int, current: seq<T>)
    requires |current| > k
    ensures CombineHelper(points, i, k, current) == []
    ensures CombineLoop(points, i, k, current) == []
    decreases |points| - i
  {
    if i < |points| {
      OverfullEmitsNothing(points, i + 1, k, current + [points[i]]);
      OverfullEmitsNothing(points, i + 1, k, current);
    }
  }

  /** `combinations(points, k)`: the `j`-th list is the image of the `j`-th
      increasing index selection, and a negative `k` yields nothing. */
  function Combinations<T>(points: seq<T>, k: int): (r: seq<seq<T>>)
    ensures k < 0 ==> r == []
    ensures 0 <= k ==> |r| == |Selections(|points|, 0, k)|
    ensures 0 <= k ==> forall j :: 0 <= j < |r| ==>
              r[j] == Image(points, Selections(|points|, 0, k)[j])
  {
    if k < 0 then OverfullEmitsNothing(points, 0, k, []); CombineHelper(points, 0, k, [])
    else HelperSelects(points, 0, k, []); CombineHelper(points, 0, k, [])
  }

  /* ---------- Properties of the selections ---------- */

  predicate StrictlySorted(ts: seq<seq<nat>>)
  {
    forall a, b :: 0 <= a < b < |ts| ==> LexLess(ts[a], ts[b])
  }

  /** The indices `lo, lo + 1, ..., n - 1`. */
  function Range(lo: nat, n: nat): (r: seq<nat>)
    requires lo <= n
    ensures |r| == n - lo
    ensures forall a :: 0 <= a < |r| ==> r[a] == lo + a
  {
    seq(n - lo, a requires 0 <= a < n - lo => lo + a)
  }

  lemma {:induction false} ChooseAbove(n: nat, k: int)
    requires k > n
    ensures Choose(n, k) == 0
  {
    if n > 0 {
      ChooseAbove(n - 1, k - 1);
      ChooseAbove(n - 1, k);
    }
  }

  lemma {:induction false} ChooseAll(n: nat)
    ensures Choose(n, n) == 1
  {
    if n > 0 {
      ChooseAll(n - 1);
      ChooseAbove(n - 1, n);
    }
  }

  lemma PascalArith(c1: nat, c2: nat, k: nat, nk: nat, a: nat, b: nat, f: nat)
    requires c1 * a * (nk * b) == f
    requires c2 * (k * a) * b == f
    ensures (c1 + c2) * (k * a) * (nk * b) == (k + nk) * f
  {
    calc {
      (c1 + c2) * (k * a) * (nk * b);
      c1 * (k * a) * (nk * b) + c2 * (k * a) * (nk * b);
      { assert c1 * (k * a) * (nk * b) == k * (c1 * a * (nk * b)); }
      k * f + c2 * (k * a) * (nk * b);
      { assert c2 * (k * a) * (nk * b) == nk * (c2 * (k * a) * b); }
      k * f + nk * f;
    }
  }

  /** Pascal's rule agrees with the closed form n! / (k! (n-k)!). */
  lemma {:induction false} ChooseFactorial(n: nat, k: nat)
    requires k <= n
    ensures Choose(n, k) * Factorial(k) * Factorial(n - k) == Factorial(n)
  {
    if k == 0 {
    } else if k == n {
      ChooseAll(n);
    } else {
      ChooseFactorial(n - 1, k - 1);
      ChooseFactorial(n - 1, k);
      assert Factorial(n - k) == (n - k) * Factorial(n - 1 - k);
      PascalArith(Choose(n - 1, k - 1), Choose(n - 1, k), k, n - k,
                  Factorial(k - 1), Factorial(n - 1 - k), Factorial(n - 1));
    }
  }

  /** There are C(n - lo, m) increasing `m`-tuples over `[lo, n)`. */
  lemma {:induction false} SelectionsCount(n: nat, lo: nat, m: nat)
    requires lo <= n
    ensures |Selections(n, lo, m)| == Choose(n - lo, m)
    decreases n - lo, 1
  {
    if m > 0 {
      SelectionsFromCount(n, lo, m);
    }
  }

  lemma {:induction false} SelectionsFromCount(n: nat, i: nat, m: nat)
    requires m > 0 && i <= n
    ensures |SelectionsFrom(n, i, m)| == Choose(n - i, m)
    decreases n - i, 0
  {
    if i < n {
      SelectionsCount(n, i + 1, m - 1);
      SelectionsFromCount(n, i + 1, m);
    }
  }

  lemma LiftSorted(i: nat, ts: seq<seq<nat>>)
    requires StrictlySorted(ts)
    ensures StrictlySorted(Lift(i, ts))
  {
    var l := Lift(i, ts);
    forall a, b | 0 <= a < b < |l| ensures LexLess(l[a], l[b]) {
      assert l[a][1..] == ts[a] && l[b][1..] == ts[b];
    }
  }

  /** The selections come out in strictly increasing lexicographic order, so
      no selection appears twice. */
  lemma {:induction false} SelectionsSorted(n: nat, lo: nat, m: nat)
    ensures StrictlySorted(Selections(n, lo, m))
    decreases n - lo, 1
  {
    if m > 0 {
      SelectionsFromSorted(n, lo, m);
    }
  }

  lemma {:induction false} SelectionsFromSorted(n: nat, i: nat, m: nat)
    requires m > 0
    ensures StrictlySorted(SelectionsFrom(n, i, m))
    decreases n - i, 0
  {
    if i < n {
      var l := Lift(i, Selections(n, i + 1, m - 1));
      var r := SelectionsFrom(n, i + 1, m);
      SelectionsSorted(n, i + 1, m - 1);
      LiftSorted(i, Selections(n, i + 1, m - 1));
      SelectionsFromSorted(n, i + 1, m);
      var all := l + r;
      forall a, b | 0 <= a < b < |all| ensures LexLess(all[a], all[b]) {
        if b < |l| {
          assert all[a] == l[a] && all[b] == l[b];
        } else if a >= |l| {
          assert all[a] == r[a - |l|] && all[b] == r[b - |l|];
        } else {
          assert all[a] == l[a] && all[a][0] == i;
          assert all[b] == r[b - |l|] && IsSelection(r[b - |l|], i + 1, n, m);
        }
      }
    }
  }

  /** Every increasing `m`-tuple over `[lo, n)` is produced: no combination is
      omitted. */
  lemma {:induction false} SelectionsComplete(n: nat, lo: nat, m: nat, t: seq<nat>)
    requires IsSelection(t, lo, n, m)
    ensures t in Selections(n, lo, m)
    decreases n - lo, 1
  {
    if m == 0 {
      assert t == [];
    } else {
      SelectionsFromComplete(n, lo, m, t);
    }
  }

  lemma {:induction false} SelectionsFromComplete(n: nat, i: nat, m: nat, t: seq<nat>)
    requires m > 0 && IsSelection(t, i, n, m)
    ensures t in SelectionsFrom(n, i, m)
    decreases n - i, 0
  {
    assert i <= t[0] < n;
    if t[0] == i {
      var inner := Selections(n, i + 1, m - 1);
      assert IsSelection(t[1..], i + 1, n, m - 1) by {
        forall a | 0 <= a < |t[1..]| ensures i + 1 <= t[1..][a] {
          assert t[1..][a] == t[a + 1] && t[0] < t[a + 1];
        }
      }
      SelectionsComplete(n, i + 1, m - 1, t[1..]);
      var j :| 0 <= j < |inner| && inner[j] == t[1..];
      assert Lift(i, inner)[j] == t;
    } else {
      SelectionsFromComplete(n, i + 1, m, t);
    }
  }

  /** Choosing all of `[lo, n)` has exactly one outcome: every index, in order. */
  lemma {:induction false} SelectionsWhole(n: nat, lo: nat)
    requires lo <= n
    ensures Selections(n, lo, n - lo) == [Range(lo, n)]
    decreases n - lo
  {
    if lo < n {
      SelectionsWhole(n, lo + 1);
      SelectionsFromCount(n, lo + 1, n - lo);
      ChooseAbove(n - (lo + 1), n - lo);
      assert [lo] + Range(lo + 1, n) == Range(lo, n);
    }
  }

  /* ---------- What `combinations` promises ---------- */

  /** `combinations(points, k)` for `0 <= k`: C(n, k) lists of `k` points each,
      the `j`-th being the points at the `j`-th increasing index selection
      (so original order is kept and no point is taken twice); the selections
      are in strict lexicographic order and include every increasing `k`-tuple.
      Hence `k > n` gives no list, `k = 0` one empty list, and `k = n` the
      whole point list once. */
  lemma CombinationsSpec<T>(points: seq<T>, k: nat)
    ensures var r := Combinations(points, k);
            var sel := Selections(|points|, 0, k);
            && |r| == |sel| == Choose(|points|, k)
            && (forall j :: 0 <= j < |r| ==>
                  |r[j]| == k && IsSelection(sel[j], 0, |points|, k) && r[j] == Image(points, sel[j]))
            && StrictlySorted(sel)
            && (forall t :: IsSelection(t, 0, |points|, k) ==> t in sel)
            && (k > |points| ==> r == [])
            && (k == 0 ==> r == [[]])
            && (k == |points| ==> r == [points])
  {
    var n := |points|;
    var r := Combinations(points, k);
    SelectionsCount(n, 0, k);
    SelectionsSorted(n, 0, k);
    forall t | IsSelection(t, 0, n, k) ensures t in Selections(n, 0, k) {
      SelectionsComplete(n, 0, k, t);
    }
    if k > n {
      ChooseAbove(n, k);
    }
    if k == 0 {
      assert r[0] == [];
    }
    if k == n {
      SelectionsWhole(n, 0);
      assert Image(points, Range(0, n)) == points;
    }
  }
}
