/** Properties relating the two aggregation policies of go/main.go, and
    properties of the averaged vector that `predictForestFixed` takes the
    arg-max of. */
module ForestProperties {
  import opened Results
  import opened Trees
  import opened Voting

  // ---------------------------------------------------------------------------
  // Sums

  lemma {:induction false} SumConcat(u: seq<real>, v: seq<real>)
    ensures Sum(u + v) == Sum(u) + Sum(v)
    decreases |v|
  {
    if |v| > 0 {
      var w := v[..|v| - 1];
      assert (u + v)[..|u + v| - 1] == u + w;
      SumConcat(u, w);
    } else {
      assert u + v == u;
    }
  }

  /** The sum of an entry-wise sum of two vectors is the sum of their sums. */
  lemma {:induction false} SumPointwise(u: seq<real>, v: seq<real>)
    requires |u| == |v|
    ensures Sum(seq(|u|, j requires 0 <= j < |u| => u[j] + v[j])) == Sum(u) + Sum(v)
    decreases |u|
  {
    var w := seq(|u|, j requires 0 <= j < |u| => u[j] + v[j]);
    if |u| > 0 {
      var u', v' := u[..|u| - 1], v[..|v| - 1];
      SumPointwise(u', v');
      assert w[..|w| - 1] == seq(|u'|, j requires 0 <= j < |u'| => u'[j] + v'[j]);
    }
  }

  /** Adding one more tree's vector into the per-class totals. */
  lemma ClassTotalsAppend(ps: seq<seq<real>>, p: seq<real>, numClasses: nat)
    requires forall i :: 0 <= i < |ps| ==> |ps[i]| == numClasses
    requires |p| == numClasses
    ensures var before := ClassTotals(ps, numClasses);
      ClassTotals(ps + [p], numClasses) == seq(numClasses, j requires 0 <= j < numClasses => before[j] + p[j])
  {
    forall j | 0 <= j < numClasses {
      ColumnSumAppend(ps, p, j);
    }
  }

  /** When every vector sums to 1, the per-class totals sum to the number of vectors. */
  lemma {:induction false} ClassTotalsSum(ps: seq<seq<real>>, numClasses: nat)
    requires forall i :: 0 <= i < |ps| ==> |ps[i]| == numClasses && Sum(ps[i]) == 1.0
    ensures Sum(ClassTotals(ps, numClasses)) == |ps| as real
    decreases |ps|
  {
    if |ps| == 0 {
      ZeroSum(ClassTotals(ps, numClasses));
    } else {
      var init, p := ps[..|ps| - 1], ps[|ps| - 1];
      assert ps == init + [p];
      ClassTotalsSum(init, numClasses);
      ClassTotalsAppend(init, p, numClasses);
      SumPointwise(ClassTotals(init, numClasses), p);
    }
  }

  lemma {:induction false} ZeroSum(v: seq<real>)
    requires forall j :: 0 <= j < |v| ==> v[j] == 0.0
    ensures Sum(v) == 0.0
    decreases |v|
  {
    if |v| > 0 {
      ZeroSum(v[..|v| - 1]);
    }
  }

  lemma {:induction false} ColumnSumNonNegative(ps: seq<seq<real>>, j: nat)
    requires forall i :: 0 <= i < |ps| ==> j < |ps[i]| && NonNegative(ps[i])
    ensures 0.0 <= ColumnSum(ps, j)
    decreases |ps|
  {
    if |ps| > 0 {
      ColumnSumNonNegative(ps[..|ps| - 1], j);
    }
  }

  // ---------------------------------------------------------------------------
  // The averaged vector of predictForestFixed

  /** The averaged vector is a probability vector: it sums to 1. */
  lemma AveragedProbabilitiesSumToOne(forest: seq<Tree>, sample: seq<real>)
    requires WellFormedForest(forest) && SoftVoteProbabilities(forest, sample).Ok?
    ensures Sum(SoftVoteProbabilities(forest, sample).value) == 1.0
  {
    var ps, n := ForestVectors(forest, sample);
    forall i | 0 <= i < |ps| ensures Sum(ps[i]) == 1.0 {
      ProbabilitiesSumToOne(forest[i], sample);
    }
    var totals, d := ClassTotals(ps, n), |forest| as real;
    ClassTotalsSum(ps, n);
    assert Sum(totals) == d;
    SumDivided(totals, d);
    SelfQuotient(d);
  }

  /** When every tree's counts are non-negative, each averaged entry lies in
      [0, 1]. */
  lemma AveragedProbabilitiesBounded(forest: seq<Tree>, sample: seq<real>)
    requires WellFormedForest(forest) && SoftVoteProbabilities(forest, sample).Ok?
    requires forall i :: 0 <= i < |forest| ==> NonNegativeLeaves(forest[i])
    ensures NonNegative(SoftVoteProbabilities(forest, sample).value)
    ensures forall j :: 0 <= j < |SoftVoteProbabilities(forest, sample).value| ==>
              SoftVoteProbabilities(forest, sample).value[j] <= 1.0
  {
    var ps, n := ForestVectors(forest, sample);
    AveragedProbabilitiesSumToOne(forest, sample);
    AveragedEntriesBounded(forest, sample, ps, n, SoftVoteProbabilities(forest, sample).value);
  }

  /** The trees' vectors behind a successful average. */
  lemma ForestVectors(forest: seq<Tree>, sample: seq<real>) returns (ps: seq<seq<real>>, n: nat)
    requires WellFormedForest(forest) && SoftVoteProbabilities(forest, sample).Ok?
    ensures |ps| == |forest| > 0
    ensures forall i :: 0 <= i < |ps| ==> TreeProbabilities(forest[i], sample) == Ok(ps[i]) && |ps[i]| == n
    ensures SoftVoteProbabilities(forest, sample).value == DivideAll(ClassTotals(ps, n), |forest| as real)
  {
    n := |TreeProbabilities(forest[0], sample).value|;
    var outcomes := TreeOutcomes(forest, sample);
    ClassVectorsMeaning(outcomes, n);
    ps := ClassVectors(outcomes, n).value;
    assert forall i :: 0 <= i < |ps| ==> outcomes[i] == TreeProbabilities(forest[i], sample);
  }

  /** With non-negative leaves every averaged entry lies in [0, 1]. */
  lemma AveragedEntriesBounded(forest: seq<Tree>, sample: seq<real>, ps: seq<seq<real>>, n: nat, avg: seq<real>)
    requires WellFormedForest(forest) && |ps| == |forest| > 0
    requires forall i :: 0 <= i < |forest| ==> NonNegativeLeaves(forest[i])
    requires forall i :: 0 <= i < |ps| ==> TreeProbabilities(forest[i], sample) == Ok(ps[i]) && |ps[i]| == n
    requires avg == DivideAll(ClassTotals(ps, n), |forest| as real) && Sum(avg) == 1.0
    ensures NonNegative(avg) && forall j :: 0 <= j < |avg| ==> avg[j] <= 1.0
  {
    var totals := ClassTotals(ps, n);
    forall i | 0 <= i < |ps| ensures NonNegative(ps[i]) {
      ProbabilitiesSumToOne(forest[i], sample);
    }
    forall j | 0 <= j < n ensures 0.0 <= avg[j] {
      ColumnSumNonNegative(ps, j);
      QuotientNonNegative(totals[j], |forest| as real);
    }
    forall j | 0 <= j < n ensures avg[j] <= 1.0 {
      EntryAtMostSum(avg, j);
    }
  }

  lemma QuotientNonNegative(x: real, d: real)
    requires 0.0 <= x && 0.0 < d
    ensures 0.0 <= x / d
  {
  }

  lemma QuotientMonotone(x: real, y: real, d: real)
    requires 0.0 < d
    ensures x <= y ==> x / d <= y / d
    ensures x < y ==> x / d < y / d
  {
    assert x / d * d == x && y / d * d == y;
  }

  /** Dividing every entry by the same positive number keeps the arg-max. */
  lemma ArgMaxIgnoresPositiveDivisor(a: seq<real>, d: real)
    requires |a| > 0 && 0.0 < d
    ensures ArgMax(DivideAll(a, d)) == ArgMax(a)
  {
    var k := ArgMax(a);
    var b := DivideAll(a, d);
    forall j | 0 <= j < |a| ensures b[j] <= b[k] && (j < k ==> b[j] < b[k]) {
      QuotientMonotone(a[j], a[k], d);
    }
    assert IsLowestArgMax(b, k);
    LowestArgMaxUnique(b, k, ArgMax(b));
  }

  /** `predictForestFixed` returns the lowest arg-max of the per-class sums, as
      the divisor `len(forest)` is positive. */
  lemma SoftVoteIsArgMaxOfSums(forest: seq<Tree>, sample: seq<real>)
    requires WellFormedForest(forest) && SoftVoteProbabilities(forest, sample).Ok?
    ensures var n := |TreeProbabilities(forest[0], sample).value|;
      && ClassVectors(TreeOutcomes(forest, sample), n).Ok?
      && SoftVote(forest, sample) == Ok(ArgMax(ClassTotals(ClassVectors(TreeOutcomes(forest, sample), n).value, n)))
  {
    var n := |TreeProbabilities(forest[0], sample).value|;
    var totals := ClassTotals(ClassVectors(TreeOutcomes(forest, sample), n).value, n);
    ArgMaxIgnoresPositiveDivisor(totals, |forest| as real);
  }

  // ---------------------------------------------------------------------------
  // Hard votes against soft votes

  /** A tree's hard vote is the lowest arg-max of its probability vector: the
      vector sums to 1, so one of its entries beats the scan's start value 0.0. */
  lemma HardVoteIsArgMax(t: Tree, sample: seq<real>)
    requires WellFormed(t) && TreeProbabilities(t, sample).Ok?
    ensures HardVote(TreeProbabilities(t, sample).value) == ArgMax(TreeProbabilities(t, sample).value)
  {
    var p := TreeProbabilities(t, sample).value;
    ProbabilitiesSumToOne(t, sample);
    PositiveEntry(p);
    HardVoteMeaning(p);
    LowestArgMaxUnique(p, HardVote(p), ArgMax(p));
  }

  /** With a single tree both policies give the same class: the hard-vote tally
      holds one class, the only possible winner, and it is the soft vote. */
  lemma SingleTreePoliciesAgree(forest: seq<Tree>, sample: seq<real>)
    requires WellFormedForest(forest) && |forest| == 1 && SoftVoteProbabilities(forest, sample).Ok?
    ensures HardVotes(TreeOutcomes(forest, sample)).Ok?
    ensures forall c: nat :: IsMajorityChoice(Tally(HardVotes(TreeOutcomes(forest, sample)).value), c) <==>
              Ok(c) == SoftVote(forest, sample)
  {
    var outcomes := TreeOutcomes(forest, sample);
    var p := TreeProbabilities(forest[0], sample).value;
    var n := |p|;
    ClassVectorsMeaning(outcomes, n);
    HardVotesMeaning(outcomes);
    var ps := ClassVectors(outcomes, n).value;
    assert ps == [p];
    var totals := ClassTotals(ps, n);
    forall j | 0 <= j < n ensures totals[j] == p[j] {
      assert ps == [] + [p];
      ColumnSumAppend([], p, j);
    }
    assert totals == p;
    SoftVoteIsArgMaxOfSums(forest, sample);
    HardVoteIsArgMax(forest[0], sample);
    var v := HardVote(p);
    assert HardVotes(outcomes).value == [v];
    assert Tally([v]) == map[v := 1] by {
      assert [v][..0] == [];
    }
  }

  /** The hard-vote tally counts every tree exactly once. */
  lemma TallyCountsEveryTree(forest: seq<Tree>, sample: seq<real>)
    requires WellFormedForest(forest) && HardVotes(TreeOutcomes(forest, sample)).Ok?
    ensures TotalVotes(Tally(HardVotes(TreeOutcomes(forest, sample)).value)) == |forest|
  {
    TallyCountsEveryVote(HardVotes(TreeOutcomes(forest, sample)).value);
  }

  /** On an empty forest the hard vote answers class 0 while the soft vote
      reports `EmptyForest`. */
  lemma EmptyForestPolicies(sample: seq<real>)
    ensures HardVotes(TreeOutcomes([], sample)) == Ok([])
    ensures forall c: nat :: IsMajorityChoice(Tally([]), c) <==> c == 0
    ensures SoftVote([], sample) == Err(EmptyForest)
  {
  }

  // ---------------------------------------------------------------------------
  // Soft votes do not depend on the order of the trees

  /** Entry `j` of a tree's probability vector, 0.0 where there is none. */
  function Entry(t: Tree, sample: seq<real>, j: nat): real {
    if WellFormed(t) && TreeProbabilities(t, sample).Ok? && j < |TreeProbabilities(t, sample).value|
    then TreeProbabilities(t, sample).value[j]
    else 0.0
  }

  function Image<T>(a: seq<T>, f: T -> real): seq<real> {
    seq(|a|, i requires 0 <= i < |a| => f(a[i]))
  }

  /** Removing the same element from both sides keeps two sequences permutations of each other. */
  lemma RemoveFromPermutation<T>(a: seq<T>, b: seq<T>, k: nat)
    requires |a| > 0 && multiset(a) == multiset(b) && k < |b| && b[k] == a[|a| - 1]
    ensures multiset(a[..|a| - 1]) == multiset(b[..k] + b[k + 1..])
  {
    var x, a', b' := a[|a| - 1], a[..|a| - 1], b[..k] + b[k + 1..];
    assert a == a' + [x];
    assert b == b[..k] + [x] + b[k + 1..];
    assert multiset(b) == multiset(b[..k]) + multiset{x} + multiset(b[k + 1..]);
    assert multiset(a) == multiset(a') + multiset{x};
    assert multiset(b') == multiset(b[..k]) + multiset(b[k + 1..]);
    forall y ensures multiset(a')[y] == multiset(b')[y] {
      assert multiset(a)[y] == multiset(b)[y];
    }
  }

  /** Taking element `k` out of a sequence takes `f` of it out of the sum. */
  lemma SumImageRemoveAt<T>(b: seq<T>, k: nat, f: T -> real)
    requires k < |b|
    ensures Sum(Image(b, f)) == Sum(Image(b[..k] + b[k + 1..], f)) + f(b[k])
  {
    var u, v := Image(b[..k], f), Image(b[k + 1..], f);
    assert Image(b, f) == u + [f(b[k])] + v;
    assert Image(b[..k] + b[k + 1..], f) == u + v;
    SumConcat(u + [f(b[k])], v);
    SumConcat(u, [f(b[k])]);
    SumConcat(u, v);
    assert Sum([f(b[k])]) == f(b[k]) by {
      assert [f(b[k])][..0] == [];
    }
  }

  /** Summing `f` over a sequence does not depend on the order of its elements. */
  lemma {:induction false} SumImagePermutation<T>(a: seq<T>, b: seq<T>, f: T -> real)
    requires multiset(a) == multiset(b)
    ensures Sum(Image(a, f)) == Sum(Image(b, f))
    decreases |a|
  {
    if |a| == 0 {
      assert |b| == |multiset(b)| == 0;
      assert b == [];
    } else {
      var x := a[|a| - 1];
      assert x in multiset(b);
      var k :| 0 <= k < |b| && b[k] == x;
      RemoveFromPermutation(a, b, k);
      SumImagePermutation(a[..|a| - 1], b[..k] + b[k + 1..], f);
      assert Image(a, f)[..|a| - 1] == Image(a[..|a| - 1], f);
      SumImageRemoveAt(b, k, f);
    }
  }

  /** A class total is the sum, over the trees, of that class's entry. */
  lemma {:induction false} ColumnSumIsImage(forest: seq<Tree>, sample: seq<real>, ps: seq<seq<real>>, j: nat)
    requires WellFormedForest(forest) && |ps| == |forest|
    requires forall i :: 0 <= i < |ps| ==> TreeProbabilities(forest[i], sample) == Ok(ps[i]) && j < |ps[i]|
    ensures ColumnSum(ps, j) == Sum(Image(forest, (t: Tree) => Entry(t, sample, j)))
    decreases |ps|
  {
    var f := (t: Tree) => Entry(t, sample, j);
    if |ps| > 0 {
      var k := |ps| - 1;
      ColumnSumIsImage(forest[..k], sample, ps[..k], j);
      assert Image(forest, f)[..k] == Image(forest[..k], f);
    }
  }

  /** The average over a non-empty forest whose trees all succeed with `n` classes. */
  lemma SucceedingVectors(forest: seq<Tree>, sample: seq<real>, n: nat) returns (ps: seq<seq<real>>)
    requires WellFormedForest(forest) && |forest| > 0
    requires forall i :: 0 <= i < |forest| ==>
               TreeProbabilities(forest[i], sample).Ok? && |TreeProbabilities(forest[i], sample).value| == n
    ensures |ps| == |forest|
    ensures forall i :: 0 <= i < |ps| ==> TreeProbabilities(forest[i], sample) == Ok(ps[i]) && |ps[i]| == n
    ensures SoftVoteProbabilities(forest, sample) == Ok(DivideAll(ClassTotals(ps, n), |forest| as real))
  {
    var outcomes := TreeOutcomes(forest, sample);
    assert forall i :: 0 <= i < |forest| ==> outcomes[i] == TreeProbabilities(forest[i], sample);
    ClassVectorsMeaning(outcomes, n);
    ps := ClassVectors(outcomes, n).value;
  }

  /** Every tree of a reordering is a tree of the original forest. */
  lemma ShuffledTreesSucceed(forest: seq<Tree>, shuffled: seq<Tree>, sample: seq<real>, n: nat)
    requires WellFormedForest(forest) && WellFormedForest(shuffled) && multiset(forest) == multiset(shuffled)
    requires forall i :: 0 <= i < |forest| ==>
               TreeProbabilities(forest[i], sample).Ok? && |TreeProbabilities(forest[i], sample).value| == n
    ensures forall k :: 0 <= k < |shuffled| ==>
              TreeProbabilities(shuffled[k], sample).Ok? && |TreeProbabilities(shuffled[k], sample).value| == n
  {
    forall k | 0 <= k < |shuffled|
      ensures TreeProbabilities(shuffled[k], sample).Ok? && |TreeProbabilities(shuffled[k], sample).value| == n
    {
      assert shuffled[k] in multiset(forest);
      var i :| 0 <= i < |forest| && forest[i] == shuffled[k];
    }
  }

  /** Reordering the trees does not change `predictForestFixed`'s class once it
      succeeds: averaging is commutative. (The hard-vote tie-break is not pinned
      at all, so there is nothing to compare there.) */
  lemma SoftVoteOrderInvariant(forest: seq<Tree>, shuffled: seq<Tree>, sample: seq<real>)
    requires WellFormedForest(forest) && WellFormedForest(shuffled)
    requires multiset(forest) == multiset(shuffled)
    requires SoftVoteProbabilities(forest, sample).Ok?
    ensures SoftVoteProbabilities(shuffled, sample) == SoftVoteProbabilities(forest, sample)
    ensures SoftVote(shuffled, sample) == SoftVote(forest, sample)
  {
    var ps, n := ForestVectors(forest, sample);
    assert |shuffled| == |multiset(shuffled)| == |forest|;
    ShuffledTreesSucceed(forest, shuffled, sample, n);
    var qs := SucceedingVectors(shuffled, sample, n);
    forall j | 0 <= j < n ensures ColumnSum(ps, j) == ColumnSum(qs, j) {
      ColumnSumIsImage(forest, sample, ps, j);
      ColumnSumIsImage(shuffled, sample, qs, j);
      SumImagePermutation(forest, shuffled, (t: Tree) => Entry(t, sample, j));
    }
    assert ClassTotals(ps, n) == ClassTotals(qs, n);
  }
}
