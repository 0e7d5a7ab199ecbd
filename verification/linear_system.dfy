/** The part of `solveByMatrix` and `gaussianElimination` that is exact:
    building the interpolation system from a combination of points, and the
    partial-pivoting step (choose the pivot row, swap it into place). Matrix
    entries are Java doubles; they are modelled as reals, which is exact for
    the entries built here except for the conversion of a `long` y-value
    beyond 2^53. */
module LinearSystem {
  import opened JavaInt
  import opened Points
  import opened Results

  /** The system `a · coefficients = b`: the matrix `A` and vector `B`. */
  datatype System = System(a: seq<seq<real>>, b: seq<real>)

  /** `A` is n×n and `B` has n entries. */
  predicate Square(s: System)
  {
    |s.b| == |s.a| && forall i :: 0 <= i < |s.a| ==> |s.a[i]| == |s.a|
  }

  /** What Java throws when row `i` of a too-narrow matrix is written past its end. */
  datatype BuildError = ArrayIndexOutOfBounds(index: nat, length: nat)

  /** Row `[x*x, x, 1, 0, ...]` of width `n`; `x * x` is a Java `int` product. */
  function Row(x: int, n: nat): seq<real>
  {
    seq(n, j requires 0 <= j < n =>
      if j == 0 then Wrap32(x * x) as real
      else if j == 1 then x as real
      else if j == 2 then 1.0
      else 0.0)
  }

  /** The matrix-building loop of `solveByMatrix`: `A` is n×n and zero-filled,
      and each row receives only its first three entries. With one or two
      points the row is too narrow for `A[i][1]` or `A[i][2]`. */
  function Build(points: seq<Point>): (r: Result<System, BuildError>)
    ensures |points| == 0 ==> r == Ok(System([], []))
    ensures 0 < |points| < 3 ==> r == Err(ArrayIndexOutOfBounds(|points|, |points|))
    ensures |points| >= 3 ==> r.Ok? && Square(r.value) && |r.value.a| == |points|
    ensures |points| >= 3 ==> forall i :: 0 <= i < |points| ==>
              && r.value.b[i] == points[i].y as real
              && r.value.a[i][0] == Wrap32(points[i].x * points[i].x) as real
              && r.value.a[i][1] == points[i].x as real
              && r.value.a[i][2] == 1.0
              && forall j :: 3 <= j < |points| ==> r.value.a[i][j] == 0.0
  {
    var n := |points|;
    if n == 0 then Ok(System([], []))
    else if n < 3 then Err(ArrayIndexOutOfBounds(n, n))
    else Ok(System(seq(n, i requires 0 <= i < n => Row(points[i].x, n)),
                   seq(n, i requires 0 <= i < n => points[i].y as real)))
  }

  /* ---------- What the built system means ---------- */

  function Dot(row: seq<real>, c: seq<real>): real
    requires |row| == |c|
  {
    if |row| == 0 then 0.0 else row[0] * c[0] + Dot(row[1..], c[1..])
  }

  /** `A · c`. */
  function MatVec(a: seq<seq<real>>, c: seq<real>): (r: seq<real>)
    requires forall i :: 0 <= i < |a| ==> |a[i]| == |c|
    ensures |r| == |a|
    ensures forall i :: 0 <= i < |a| ==> r[i] == Dot(a[i], c)
  {
    seq(|a|, i requires 0 <= i < |a| => Dot(a[i], c))
  }

  /** The quadratic with coefficients `c = [a, b, c]`, highest degree first. */
  function Quadratic(c: seq<real>, x: int): real
    requires |c| == 3
  {
    c[0] * (x as real) * (x as real) + c[1] * (x as real) + c[2]
  }

  /** Below 46341 in magnitude the `int` product `x * x` does not wrap. */
  lemma SquareFits(x: int)
    requires -46340 <= x <= 46340
    ensures Wrap32(x * x) == x * x
  {
    var y := if x >= 0 then x else -x;
    assert x * x == y * y;
    MulBound(y, 46340);
    assert InInt32(x * x);
  }

  lemma MulBound(y: nat, m: nat)
    requires y <= m
    ensures y * y <= m * m
  {
    assert y * y <= m * y;
    assert m * y <= m * m;
  }

  /** From 46341 on, `x * x` wraps to a negative `int` and the first column is wrong. */
  lemma SquareWraps()
    ensures Wrap32(46341 * 46341) == -2147479015
  {
  }

  /** With three points whose x-values do not overflow when squared, a vector
      `c` solves the built system exactly when the quadratic with coefficients
      `c` passes through every point: the system is the interpolation problem. */
  lemma BuildInterpolates(points: seq<Point>, c: seq<real>)
    requires |points| == 3 && |c| == 3
    requires forall i :: 0 <= i < 3 ==> -46340 <= points[i].x <= 46340
    ensures Build(points).Ok?
    ensures MatVec(Build(points).value.a, c) == Build(points).value.b
            <==> forall i :: 0 <= i < 3 ==> Quadratic(c, points[i].x) == points[i].y as real
  {
    var s := Build(points).value;
    forall i | 0 <= i < 3
      ensures Dot(s.a[i], c) == Quadratic(c, points[i].x)
    {
      var x := points[i].x;
      SquareFits(x);
      assert (x * x) as real == (x as real) * (x as real);
      var row := s.a[i];
      var xr := x as real;
      assert row[0] == xr * xr && row[1] == xr && row[2] == 1.0;
      assert Dot(row[1..][1..][1..], c[1..][1..][1..]) == 0.0;
      assert Dot(row[1..][1..], c[1..][1..]) == c[2];
      assert Dot(row[1..], c[1..]) == xr * c[1] + c[2];
      assert Dot(row, c) == xr * xr * c[0] + (xr * c[1] + c[2]);
    }
    var m := MatVec(s.a, c);
    if m == s.b {
      forall i | 0 <= i < 3 ensures Quadratic(c, points[i].x) == points[i].y as real {
        assert m[i] == s.b[i];
      }
    }
    if forall i :: 0 <= i < 3 ==> Quadratic(c, points[i].x) == points[i].y as real {
      assert forall i :: 0 <= i < 3 ==> m[i] == s.b[i];
    }
  }

  lemma {:induction false} DotZeroTail(row: seq<real>, c: seq<real>, m: nat)
    requires |row| == |c| && m <= |row|
    requires forall j :: m <= j < |row| ==> row[j] == 0.0
    ensures Dot(row, c) == Dot(row[..m], c[..m])
    decreases |row|
  {
    if |row| > 0 {
      if m == 0 {
        DotZeroTail(row[1..], c[1..], 0);
        assert row[1..][..0] == [];
      } else {
        DotZeroTail(row[1..], c[1..], m - 1);
        assert row[..m][1..] == row[1..][..m - 1];
        assert c[..m][1..] == c[1..][..m - 1];
      }
    }
  }

  /** With more than three points only the first three coefficients reach the
      matrix (columns 3 and beyond stay zero), so coefficient vectors that
      differ only there give the same product: the system is singular and
      does not determine a polynomial of degree `n - 1`. */
  lemma BuildIgnoresHigherCoefficients(points: seq<Point>, c: seq<real>, d: seq<real>)
    requires |points| > 3 && |c| == |points| && |d| == |points|
    requires c[..3] == d[..3]
    ensures Build(points).Ok?
    ensures MatVec(Build(points).value.a, c) == MatVec(Build(points).value.a, d)
  {
    var a := Build(points).value.a;
    forall i | 0 <= i < |a| ensures Dot(a[i], c) == Dot(a[i], d) {
      DotZeroTail(a[i], c, 3);
      DotZeroTail(a[i], d, 3);
    }
  }

  /* ---------- Partial pivoting ---------- */

  function Abs(v: real): (r: real)
    ensures r >= 0.0 && (r == v || r == -v)
  {
    if v < 0.0 then -v else v
  }

  /** Row `p` is the first of rows `i..` whose entry in column `i` has the
      largest magnitude. */
  predicate IsPivot(a: seq<seq<real>>, i: nat, p: nat)
    requires forall j :: i <= j < |a| ==> i < |a[j]|
  {
    && i <= p < |a|
    && (forall j :: i <= j < |a| ==> Abs(a[j][i]) <= Abs(a[p][i]))
    && (forall j :: i <= j < p ==> Abs(a[j][i]) < Abs(a[p][i]))
  }

  /** The pivot search of `gaussianElimination` at step `i`: a later row
      replaces the candidate only when strictly larger in magnitude. */
  method SelectPivot(a: seq<seq<real>>, i: nat) returns (maxRow: nat)
    requires i < |a|
    requires forall j :: i <= j < |a| ==> i < |a[j]|
    ensures IsPivot(a, i, maxRow)
  {
    maxRow := i;
    var j := i + 1;
    while j < |a|
      invariant i < j <= |a|
      invariant i <= maxRow < j
      invariant forall t :: i <= t < j ==> Abs(a[t][i]) <= Abs(a[maxRow][i])
      invariant forall t :: i <= t < maxRow ==> Abs(a[t][i]) < Abs(a[maxRow][i])
    {
      if Abs(a[j][i]) > Abs(a[maxRow][i]) {
        maxRow := j;
      }
      j := j + 1;
    }
  }

  /** The pivot row is determined: two rows that both meet `IsPivot` are the same. */
  lemma PivotUnique(a: seq<seq<real>>, i: nat, p: nat, q: nat)
    requires forall j :: i <= j < |a| ==> i < |a[j]|
    requires IsPivot(a, i, p) && IsPivot(a, i, q)
    ensures p == q
  {
    if p < q {
      NotAbove(a, i, p, q);
      assert false;
    } else if q < p {
      NotAbove(a, i, q, p);
      assert false;
    }
  }

  lemma NotAbove(a: seq<seq<real>>, i: nat, p: nat, q: nat)
    requires forall j :: i <= j < |a| ==> i < |a[j]|
    requires IsPivot(a, i, q) && i <= p < q
    ensures Abs(a[p][i]) < Abs(a[q][i])
  {
  }

  /** The row swap of `gaussianElimination`: rows `i` and `p` of `A` trade
      places, and so do entries `i` and `p` of `B`. */
  function SwapRows(s: System, i: nat, p: nat): (r: System)
    requires |s.a| == |s.b| && i < |s.a| && p < |s.a|
    ensures |r.a| == |s.a| && |r.b| == |s.b|
    ensures r.a[i] == s.a[p] && r.b[i] == s.b[p]
    ensures r.a[p] == s.a[i] && r.b[p] == s.b[i]
    ensures forall j :: 0 <= j < |s.a| && j != i && j != p ==> r.a[j] == s.a[j] && r.b[j] == s.b[j]
  {
    System(s.a[i := s.a[p]][p := s.a[i]], s.b[i := s.b[p]][p := s.b[i]])
  }

  /** Each equation of the system as one (row of `A`, entry of `B`) pair. */
  function Equations(s: System): (r: seq<(seq<real>, real)>)
    requires |s.a| == |s.b|
    ensures |r| == |s.a|
  {
    seq(|s.a|, j requires 0 <= j < |s.a| => (s.a[j], s.b[j]))
  }

  /** Swapping moves whole equations: the multiset of (row, right-hand side)
      pairs is unchanged, and swapping again restores the system. */
  lemma SwapRowsPermutes(s: System, i: nat, p: nat)
    requires |s.a| == |s.b| && i < |s.a| && p < |s.a|
    ensures multiset(Equations(SwapRows(s, i, p))) == multiset(Equations(s))
    ensures SwapRows(SwapRows(s, i, p), i, p) == s
  {
    var e := Equations(s);
    var f := Equations(SwapRows(s, i, p));
    assert f == e[i := e[p]][p := e[i]];
    var t := SwapRows(SwapRows(s, i, p), i, p);
    assert t.a == s.a && t.b == s.b;
  }

  /** One partial-pivoting step: afterwards row `i` holds the largest entry of
      column `i` among rows `i..`, the rows above `i` are untouched, and the
      equations are only reordered. */
  method PivotStep(s: System, i: nat) returns (r: System, maxRow: nat)
    requires Square(s) && i < |s.a|
    ensures IsPivot(s.a, i, maxRow)
    ensures r == SwapRows(s, i, maxRow)
    ensures Square(r)
    ensures forall j :: i <= j < |r.a| ==> Abs(r.a[j][i]) <= Abs(r.a[i][i])
    ensures forall j :: 0 <= j < i ==> r.a[j] == s.a[j] && r.b[j] == s.b[j]
    ensures multiset(Equations(r)) == multiset(Equations(s))
  {
    maxRow := SelectPivot(s.a, i);
    r := SwapRows(s, i, maxRow);
    SwapRowsPermutes(s, i, maxRow);
  }
}
