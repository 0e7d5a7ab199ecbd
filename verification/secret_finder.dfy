/** The pipeline of `main`: every k-combination of the decoded points is
    solved for its constant term, and the terms are aggregated into the
    verdict. Solving is floating-point elimination followed by `Math.round`;
    its value enters the model as the parameter `constantTerm`. The array
    accesses that throw before any value exists are modelled: building the
    system for fewer than three points, and reading `coeffs[2]` from a
    result shorter than three. The first combination that throws ends the
    run. */
module SecretFinder {
  import opened Results
  import opened Points
  import opened Subsets
  import opened LinearSystem
  import opened Verdict

  /** `solveByMatrix(combo)[2]` for one combination: the matrix build throws
      for one or two points, and for no points the returned array is empty,
      so `coeffs[2]` throws. */
  function SolveConstant(combo: seq<Point>, constantTerm: seq<Point> -> int): (r: Result<int, BuildError>)
    ensures |combo| >= 3 <==> r.Ok?
    ensures r.Ok? ==> r.value == constantTerm(combo)
    ensures |combo| == 0 ==> r == Err(ArrayIndexOutOfBounds(2, 0))
    ensures 0 < |combo| < 3 ==> r == Err(ArrayIndexOutOfBounds(|combo|, |combo|))
  {
    match Build(combo)
    case Err(e) => Err(e)
    case Ok(_) =>
      if |combo| < 3 then Err(ArrayIndexOutOfBounds(2, |combo|))
      else Ok(constantTerm(combo))
  }

  /** The loop at lines 180-188: the constant term of each combination in
      enumeration order, or the exception of the first combination that throws. */
  function Candidates(combos: seq<seq<Point>>, constantTerm: seq<Point> -> int): (r: Result<seq<int>, BuildError>)
    ensures r.Ok? <==> forall j :: 0 <= j < |combos| ==> SolveConstant(combos[j], constantTerm).Ok?
    ensures r.Ok? ==> |r.value| == |combos|
    ensures r.Ok? ==> forall j :: 0 <= j < |combos| ==> r.value[j] == constantTerm(combos[j])
    ensures r.Err? ==> exists j :: 0 <= j < |combos| && SolveConstant(combos[j], constantTerm) == Err(r.error)
                          && forall i :: 0 <= i < j ==> SolveConstant(combos[i], constantTerm).Ok?
  {
    if |combos| == 0 then Ok([])
    else
      match SolveConstant(combos[0], constantTerm)
      case Err(e) => Err(e)
      case Ok(c) =>
        match Candidates(combos[1..], constantTerm)
        case Err(e) =>
          var j :| 0 <= j < |combos[1..]| && SolveConstant(combos[1..][j], constantTerm) == Err(e)
                   && forall i :: 0 <= i < j ==> SolveConstant(combos[1..][i], constantTerm).Ok?;
          assert SolveConstant(combos[j + 1], constantTerm) == Err(e);
          Err(e)
        case Ok(cs) =>
          assert forall j :: 1 <= j < |combos| ==> combos[j] == combos[1..][j - 1];
          Ok([c] + cs)
  }

  /** `main` after reading the points: enumerate, solve, aggregate. */
  function Run(points: seq<Point>, k: int, constantTerm: seq<Point> -> int): Result<Report, BuildError>
  {
    match Candidates(Combinations(points, k), constantTerm)
    case Err(e) => Err(e)
    case Ok(cs) => Ok(Aggregate(cs))
  }

  /** For `0 <= k <= n` the run either throws on its first combination
      (`k < 3`) or computes a constant term for every combination. */
  lemma RunSolvesAll(points: seq<Point>, k: nat, constantTerm: seq<Point> -> int)
    requires k <= |points|
    ensures var combos := Combinations(points, k);
            && |combos| > 0
            && (k == 0 ==> Run(points, k, constantTerm) == Err(ArrayIndexOutOfBounds(2, 0)))
            && (0 < k < 3 ==> Run(points, k, constantTerm) == Err(ArrayIndexOutOfBounds(k, k)))
            && (k >= 3 ==> Candidates(combos, constantTerm).Ok?)
  {
    var combos := Combinations(points, k);
    CombinationsSpec(points, k);
    ChooseFactorial(|points|, k);
    assert |combos| > 0;
    if k < 3 {
      assert !SolveConstant(combos[0], constantTerm).Ok?;
      var r := Candidates(combos, constantTerm);
      var j :| 0 <= j < |combos| && SolveConstant(combos[j], constantTerm) == Err(r.error);
      assert |combos[j]| == k;
    }
  }

  /** With at least three of the `n` points required and every k-combination
      yielding the constant `c`, the run reports that single secret; with
      fewer than three it throws instead. */
  lemma RunAgrees(points: seq<Point>, k: nat, constantTerm: seq<Point> -> int, c: int)
    requires k <= |points|
    requires forall j :: 0 <= j < |Combinations(points, k)| ==> constantTerm(Combinations(points, k)[j]) == c
    ensures k < 3 ==> Run(points, k, constantTerm).Err?
    ensures k >= 3 ==> Run(points, k, constantTerm) == Ok(Report({c}, true))
  {
    RunSolvesAll(points, k, constantTerm);
    if k >= 3 {
      var cs := Candidates(Combinations(points, k), constantTerm).value;
      assert |cs| > 0;
      assert AllAgree(cs);
    }
  }

  /** Two combinations with different constant terms make the run report
      disagreement, listing both values, once it gets past the first
      combination (at least three points required); with fewer it throws. */
  lemma RunDisagrees(points: seq<Point>, k: nat, constantTerm: seq<Point> -> int, i: nat, j: nat)
    requires k <= |points|
    requires i < |Combinations(points, k)| && j < |Combinations(points, k)|
    requires constantTerm(Combinations(points, k)[i]) != constantTerm(Combinations(points, k)[j])
    ensures Run(points, k, constantTerm).Err? <==> k < 3
    ensures k >= 3 ==>
              && !Run(points, k, constantTerm).value.same
              && constantTerm(Combinations(points, k)[i]) in Run(points, k, constantTerm).value.candidates
              && constantTerm(Combinations(points, k)[j]) in Run(points, k, constantTerm).value.candidates
  {
    RunSolvesAll(points, k, constantTerm);
    if k >= 3 {
      var cs := Candidates(Combinations(points, k), constantTerm).value;
      assert cs[i] != cs[j];
      assert cs[i] in cs && cs[j] in cs;
    }
  }

  /** With `k` outside `0..n` there is no combination, so nothing throws and
      the run reports "different" with an empty set. */
  lemma RunWithoutCombinations(points: seq<Point>, k: int, constantTerm: seq<Point> -> int)
    requires k < 0 || k > |points|
    ensures Run(points, k, constantTerm) == Ok(Report({}, false))
  {
    if k >= 0 {
      CombinationsSpec(points, k);
    }
    assert Candidates(Combinations(points, k), constantTerm) == Ok([]);
    AggregateEmpty();
  }
}
