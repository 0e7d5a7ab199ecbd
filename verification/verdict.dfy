/** The closing verdict of `main`: the constant terms of all combinations are
    gathered into a set, and the shares are reported consistent exactly when
    that set holds a single value. */
module Verdict {

  /** The set of distinct candidates and whether the "same secret" branch is taken. */
  datatype Report = Report(candidates: set<int>, same: bool)

  /** Every candidate in `cs` equals the first, and there is at least one. */
  predicate AllAgree(cs: seq<int>)
  {
    |cs| > 0 && forall j :: 0 <= j < |cs| ==> cs[j] == cs[0]
  }

  /** `secretCandidates.add(c)` for each candidate, then the
      `secretCandidates.size() == 1` test. */
  function Aggregate(cs: seq<int>): (r: Report)
    ensures forall v :: v in r.candidates <==> v in cs
    ensures r.same <==> AllAgree(cs)
    ensures r.same ==> r.candidates == {cs[0]}
  {
    var values := set j | 0 <= j < |cs| :: cs[j];
    SingletonIffAgree(cs, values);
    Report(values, |values| == 1)
  }

  lemma SingletonIffAgree(cs: seq<int>, values: set<int>)
    requires forall v :: v in values <==> v in cs
    ensures |values| == 1 <==> AllAgree(cs)
    ensures AllAgree(cs) ==> values == {cs[0]}
  {
    if |cs| == 0 {
      assert forall v :: v !in values;
      assert values == {};
    } else if AllAgree(cs) {
      forall v ensures v in values <==> v == cs[0] {
        assert cs[0] in cs;
        if v in cs {
          var j :| 0 <= j < |cs| && cs[j] == v;
        }
      }
      assert values == {cs[0]};
    } else {
      var j :| 0 <= j < |cs| && cs[j] != cs[0];
      assert cs[0] in cs && cs[j] in cs;
      var rest := values - {cs[0]};
      assert cs[j] in rest;
      assert |rest| == |values| - 1;
    }
  }

  /** The verdict depends only on which values occur: reordering the
      combinations or repeating a candidate changes nothing. */
  lemma AggregateIgnoresOrderAndRepeats(cs: seq<int>, ds: seq<int>)
    requires forall v :: v in cs <==> v in ds
    ensures Aggregate(cs) == Aggregate(ds)
  {
    var a, b := Aggregate(cs).candidates, Aggregate(ds).candidates;
    forall v ensures v in a <==> v in b {
      assert v in a <==> v in cs;
      assert v in b <==> v in ds;
    }
    assert a == b;
  }

  /** With no combinations at all the set is empty and the "different" branch is taken. */
  lemma AggregateEmpty()
    ensures Aggregate([]) == Report({}, false)
  {
    assert Aggregate([]).candidates == {};
  }
}
