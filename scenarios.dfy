/** Worked examples: a one-split tree, two trees that disagree, and a sample
    too short for a split. */
module Scenarios {
  import opened Results
  import opened Trees
  import opened Voting

  /** Root splits on feature 0 at 0.5; the left leaf counts [10, 0], the right
      leaf [2, 8]. Leaf entries of `feature` and `threshold` are the -2 that
      the exporter writes there. */
  const SplitTree := Tree([1, -1, -1], [2, -1, -1], [0, -2, -2], [0.5, -2.0, -2.0],
                          [[12.0, 8.0], [10.0, 0.0], [2.0, 8.0]])

  /** Single-leaf trees whose probabilities are [0.9, 0.1] and [0.1, 0.9]. */
  const LeansZero := Tree([-1], [-1], [-2], [-2.0], [[9.0, 1.0]])
  const LeansOne := Tree([-1], [-1], [-2], [-2.0], [[1.0, 9.0]])

  lemma SumOfTwo(a: real, b: real)
    ensures Sum([a, b]) == a + b
  {
    var s, t := [a, b], [a];
    assert s[..|s| - 1] == t;
    assert t[..|t| - 1] == [];
    assert Sum(t) == a;
    assert Sum(s) == Sum(t) + b;
  }

  /** On a non-zero two-class vector of non-negative entries, the hard vote and
      the arg-max are both 0 unless the second entry is larger. */
  lemma TwoClassVotes(p: seq<real>)
    requires |p| == 2 && 0.0 <= p[0] && 0.0 <= p[1] && 0.0 < p[0] + p[1]
    ensures p[1] <= p[0] ==> HardVote(p) == 0 && ArgMax(p) == 0
    ensures p[0] < p[1] ==> HardVote(p) == 1 && ArgMax(p) == 1
  {
    var head := p[..1];
    assert p[..|p| - 1] == head;
    assert head[..|head| - 1] == [];
    assert VoteScan(head) == if p[0] > 0.0 then (0, p[0]) else (0, 0.0);
    assert ArgMax(head) == 0;
  }

  /** 0.2 <= 0.5 goes left, to counts [10, 0]. */
  lemma SplitTreeLeft()
    ensures WellFormed(SplitTree)
    ensures TreeProbabilities(SplitTree, [0.2]) == Ok([1.0, 0.0])
  {
    assert Descend(SplitTree, [0.2], 1) == Ok(1);
    SumOfTwo(10.0, 0.0);
    assert DivideAll([10.0, 0.0], 10.0) == [1.0, 0.0];
  }

  /** 0.9 > 0.5 goes right, to counts [2, 8]. */
  lemma SplitTreeRight()
    ensures WellFormed(SplitTree)
    ensures TreeProbabilities(SplitTree, [0.9]) == Ok([0.2, 0.8])
  {
    assert Descend(SplitTree, [0.9], 2) == Ok(2);
    SumOfTwo(2.0, 8.0);
    assert DivideAll([2.0, 8.0], 10.0) == [0.2, 0.8];
  }

  /** An empty sample cannot be routed past the root, which reads feature 0. */
  lemma SplitTreeShortSample()
    ensures WellFormed(SplitTree)
    ensures TreeProbabilities(SplitTree, []) == Err(FeatureOutOfRange(0, 0))
  {
  }

  /** Both policies on a forest whose trees all succeed with two classes. */
  lemma Policies(forest: seq<Tree>, sample: seq<real>, ps: seq<seq<real>>)
    requires WellFormedForest(forest) && |forest| == |ps| > 0
    requires forall i :: 0 <= i < |forest| ==> TreeProbabilities(forest[i], sample) == Ok(ps[i]) && |ps[i]| == 2
    ensures HardVotes(TreeOutcomes(forest, sample)) == Ok(seq(|ps|, i requires 0 <= i < |ps| => HardVote(ps[i])))
    ensures SoftVoteProbabilities(forest, sample) == Ok(DivideAll(ClassTotals(ps, 2), |forest| as real))
  {
    var outcomes := TreeOutcomes(forest, sample);
    assert forall i :: 0 <= i < |outcomes| ==> outcomes[i] == Ok(ps[i]);
    HardVotesMeaning(outcomes);
    ClassVectorsMeaning(outcomes, 2);
    assert HardVotes(outcomes).value == seq(|ps|, i requires 0 <= i < |ps| => HardVote(ps[i]));
    assert ClassVectors(outcomes, 2).value == ps;
  }

  /** Column sums of two vectors. */
  lemma TotalsOfTwo(p: seq<real>, q: seq<real>)
    requires |p| == 2 && |q| == 2
    ensures ClassTotals([p, q], 2) == [p[0] + q[0], p[1] + q[1]]
  {
    var none: seq<seq<real>> := [];
    forall j | 0 <= j < 2 ensures ColumnSum([p, q], j) == p[j] + q[j] {
      ColumnSumAppend(none, p, j);
      assert none + [p] == [p];
      ColumnSumAppend([p], q, j);
      assert [p] + [q] == [p, q];
    }
  }

  /** With this single tree both policies give class 0 for [0.2] and class 1
      for [0.9]. */
  lemma SplitTreePolicies()
    ensures WellFormedForest([SplitTree])
    ensures HardVotes(TreeOutcomes([SplitTree], [0.2])) == Ok([0])
    ensures SoftVote([SplitTree], [0.2]) == Ok(0)
    ensures HardVotes(TreeOutcomes([SplitTree], [0.9])) == Ok([1])
    ensures SoftVote([SplitTree], [0.9]) == Ok(1)
  {
    SplitTreeLeft();
    SplitTreeRight();
    var left, right := [1.0, 0.0], [0.2, 0.8];
    TwoClassVotes(left);
    TwoClassVotes(right);
    Policies([SplitTree], [0.2], [left]);
    Policies([SplitTree], [0.9], [right]);
    assert seq(1, i requires 0 <= i < 1 => HardVote([left][i])) == [0];
    assert seq(1, i requires 0 <= i < 1 => HardVote([right][i])) == [1];
    OneTreeTotals(left);
    OneTreeTotals(right);
  }

  /** Averaging over one tree returns that tree's vector. */
  lemma OneTreeTotals(p: seq<real>)
    ensures DivideAll(ClassTotals([p], |p|), 1.0) == p
  {
    var none: seq<seq<real>> := [];
    forall j | 0 <= j < |p| ensures ColumnSum([p], j) == p[j] {
      ColumnSumAppend(none, p, j);
      assert none + [p] == [p];
    }
  }

  lemma LeaningTrees(sample: seq<real>)
    ensures WellFormed(LeansZero) && WellFormed(LeansOne)
    ensures TreeProbabilities(LeansZero, sample) == Ok([0.9, 0.1])
    ensures TreeProbabilities(LeansOne, sample) == Ok([0.1, 0.9])
  {
    SumOfTwo(9.0, 1.0);
    SumOfTwo(1.0, 9.0);
    assert DivideAll([9.0, 1.0], 10.0) == [0.9, 0.1];
    assert DivideAll([1.0, 9.0], 10.0) == [0.1, 0.9];
  }

  /** A 1-1 tie admits either class as the majority. */
  lemma TiedTally()
    ensures IsMajorityChoice(Tally([0, 1]), 0) && IsMajorityChoice(Tally([0, 1]), 1)
  {
    var votes: seq<nat> := [0, 1];
    assert votes[..|votes| - 1] == [0];
    TallyMeaning(votes);
    assert multiset(votes)[0] == 1 && multiset(votes)[1] == 1;
  }

  /** Two trees that disagree: the hard votes tie 1-1, so the majority rule
      admits both classes, while the averaged vector [0.5, 0.5] resolves to the
      lower class 0. */
  lemma DisagreeingTrees(sample: seq<real>)
    ensures WellFormedForest([LeansZero, LeansOne])
    ensures HardVotes(TreeOutcomes([LeansZero, LeansOne], sample)) == Ok([0, 1])
    ensures IsMajorityChoice(Tally([0, 1]), 0) && IsMajorityChoice(Tally([0, 1]), 1)
    ensures SoftVoteProbabilities([LeansZero, LeansOne], sample) == Ok([0.5, 0.5])
    ensures SoftVote([LeansZero, LeansOne], sample) == Ok(0)
  {
    var zero, one := [0.9, 0.1], [0.1, 0.9];
    LeaningTrees(sample);
    TwoClassVotes(zero);
    TwoClassVotes(one);
    Policies([LeansZero, LeansOne], sample, [zero, one]);
    assert seq(2, i requires 0 <= i < 2 => HardVote([zero, one][i])) == [0, 1];
    TotalsOfTwo(zero, one);
    assert DivideAll([1.0, 1.0], 2.0) == [0.5, 0.5];
    TwoClassVotes([0.5, 0.5]);
    TiedTally();
  }
}
