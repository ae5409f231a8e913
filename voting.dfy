/** The two ways the forest's trees are combined into one class:
    `predictForestUnfixed` (majority of hard votes) and `predictForestFixed`
    (arg-max of the averaged probabilities), go/main.go. */
module Voting {
  import opened Results
  import opened Trees

  datatype ForestError =
    | TreeFailed(tree: nat, cause: TreeError)                      // "error in tree %d: ..."
    | FirstTreeFailed(cause: TreeError)                            // "error getting first tree probabilities: ..."
    | EmptyForest                                                  // "empty forest"
    | ClassCountMismatch(tree: nat, classes: nat, expected: nat)   // "tree %d has %d classes, expected %d"

  type Outcome = Result<seq<real>, TreeError>

  predicate WellFormedForest(forest: seq<Tree>) {
    forall i :: 0 <= i < |forest| ==> WellFormed(forest[i])
  }

  /** `k` is the lowest index holding the maximum of `a`. */
  predicate IsLowestArgMax(a: seq<real>, k: nat) {
    && k < |a|
    && (forall j :: 0 <= j < |a| ==> a[j] <= a[k])
    && (forall j :: 0 <= j < k ==> a[j] < a[k])
  }

  lemma LowestArgMaxUnique(a: seq<real>, k: nat, m: nat)
    requires IsLowestArgMax(a, k) && IsLowestArgMax(a, m)
    ensures k == m
  {
    assert a[k] == a[m];
  }

  // ---------------------------------------------------------------------------
  // Hard votes

  /** The state (index, best value) of a tree's arg-max scan after reading `p`:
      it starts at index 0 with best value 0.0 and moves only on a strict
      improvement. */
  function VoteScan(p: seq<real>): (s: (nat, real))
    ensures 0.0 <= s.1
    ensures forall j :: 0 <= j < |p| ==> p[j] <= s.1
    ensures s.1 == 0.0 ==> s.0 == 0
    ensures s.1 > 0.0 ==> s.0 < |p| && p[s.0] == s.1 && forall j :: 0 <= j < s.0 ==> p[j] < s.1
  {
    if |p| == 0 then (0, 0.0)
    else
      var s := VoteScan(p[..|p| - 1]);
      if p[|p| - 1] > s.1 then (|p| - 1, p[|p| - 1]) else s
  }

  /** A tree's hard vote. */
  function HardVote(p: seq<real>): nat {
    VoteScan(p).0
  }

  /** The hard vote is the lowest index of the strict maximum when some entry is
      positive, and 0 when none is. */
  lemma HardVoteMeaning(p: seq<real>)
    ensures (forall j :: 0 <= j < |p| ==> p[j] <= 0.0) ==> HardVote(p) == 0
    ensures (exists j :: 0 <= j < |p| && p[j] > 0.0) ==> IsLowestArgMax(p, HardVote(p)) && p[HardVote(p)] > 0.0
  {
    var s := VoteScan(p);
    if s.1 == 0.0 {
      assert forall j :: 0 <= j < |p| ==> p[j] <= 0.0;
    }
  }

  /** The per-tree arg-max loop of `predictForestUnfixed`. */
  method TreeVote(probabilities: seq<real>) returns (maxIdx: nat)
    ensures maxIdx == HardVote(probabilities)
  {
    var maxProb := 0.0;
    maxIdx := 0;
    for j := 0 to |probabilities|
      invariant (maxIdx, maxProb) == VoteScan(probabilities[..j])
    {
      assert probabilities[..j + 1][..j] == probabilities[..j];
      if probabilities[j] > maxProb {
        maxProb := probabilities[j];
        maxIdx := j;
      }
    }
    assert probabilities[..|probabilities|] == probabilities;
  }

  lemma PrefixStep<T>(s: seq<T>, i: nat)
    requires i < |s|
    ensures s[..i + 1][..i] == s[..i] && s[..i + 1][i] == s[i]
  {
  }

  /** What `predictTree` returns for each tree, in forest order. */
  function TreeOutcomes(forest: seq<Tree>, sample: seq<real>): seq<Outcome>
    requires WellFormedForest(forest)
  {
    seq(|forest|, i requires 0 <= i < |forest| => TreeProbabilities(forest[i], sample))
  }

  /** The hard votes of the trees whose outcomes are `outcomes`, or the error of
      the first failing tree, tagged with its index. */
  function HardVotes(outcomes: seq<Outcome>): (r: Result<seq<nat>, ForestError>)
    ensures r.Ok? ==> |r.value| == |outcomes|
    ensures r.Err? ==> r.error.TreeFailed? && r.error.tree < |outcomes|
  {
    if |outcomes| == 0 then Ok([])
    else
      var last := |outcomes| - 1;
      match HardVotes(outcomes[..last])
      case Err(e) => Err(e)
      case Ok(votes) =>
        match outcomes[last]
        case Err(e) => Err(TreeFailed(last, e))
        case Ok(p) => Ok(votes + [HardVote(p)])
  }

  /** The votes succeed exactly when every tree does; each entry is that tree's
      hard vote; an error is that of the first tree that fails. */
  lemma {:induction false} HardVotesMeaning(outcomes: seq<Outcome>)
    ensures HardVotes(outcomes).Ok? <==> forall i :: 0 <= i < |outcomes| ==> outcomes[i].Ok?
    ensures HardVotes(outcomes).Ok? ==> forall i :: 0 <= i < |outcomes| ==>
              HardVotes(outcomes).value[i] == HardVote(outcomes[i].value)
    ensures HardVotes(outcomes).Err? ==>
              && outcomes[HardVotes(outcomes).error.tree] == Err(HardVotes(outcomes).error.cause)
              && forall i :: 0 <= i < HardVotes(outcomes).error.tree ==> outcomes[i].Ok?
    decreases |outcomes|
  {
    if |outcomes| > 0 {
      var init := outcomes[..|outcomes| - 1];
      HardVotesMeaning(init);
      assert forall i :: 0 <= i < |init| ==> init[i] == outcomes[i];
    }
  }

  /** One more tree: its error, tagged with its index, or its vote appended. */
  lemma HardVotesStep(outcomes: seq<Outcome>, i: nat, cast: seq<nat>)
    requires i < |outcomes| && HardVotes(outcomes[..i]) == Ok(cast)
    ensures outcomes[i].Err? ==> HardVotes(outcomes[..i + 1]) == Err(TreeFailed(i, outcomes[i].error))
    ensures outcomes[i].Ok? ==> HardVotes(outcomes[..i + 1]) == Ok(cast + [HardVote(outcomes[i].value)])
  {
    PrefixStep(outcomes, i);
  }

  /** Once the trees before `k` fail, the forest fails with the same error. */
  lemma {:induction false} HardVotesErrorPersists(outcomes: seq<Outcome>, k: nat)
    requires k <= |outcomes| && HardVotes(outcomes[..k]).Err?
    ensures HardVotes(outcomes) == HardVotes(outcomes[..k])
    decreases |outcomes|
  {
    if k < |outcomes| {
      var init := outcomes[..|outcomes| - 1];
      assert init[..k] == outcomes[..k];
      HardVotesErrorPersists(init, k);
    } else {
      assert outcomes[..k] == outcomes;
    }
  }

  /** Go's `votes` map after counting `votes` in order. */
  function Tally(votes: seq<nat>): map<nat, nat> {
    if |votes| == 0 then map[]
    else
      var m := Tally(votes[..|votes| - 1]);
      var v := votes[|votes| - 1];
      m[v := (if v in m then m[v] else 0) + 1]
  }

  /** Counting one more vote. */
  lemma TallyStep(votes: seq<nat>, v: nat)
    ensures Tally(votes + [v]) == Tally(votes)[v := (if v in Tally(votes) then Tally(votes)[v] else 0) + 1]
  {
    var extended := votes + [v];
    assert extended[..|extended| - 1] == votes;
  }

  /** The tally holds exactly the classes voted for, each with its number of votes. */
  lemma {:induction false} TallyMeaning(votes: seq<nat>)
    ensures forall c :: c in Tally(votes) <==> c in votes
    ensures forall c :: c in Tally(votes) ==> Tally(votes)[c] == multiset(votes)[c] > 0
    decreases |votes|
  {
    if |votes| > 0 {
      var init := votes[..|votes| - 1];
      TallyMeaning(init);
      assert votes == init + [votes[|votes| - 1]];
    }
  }

  ghost function AnyClass(m: map<nat, nat>): (c: nat)
    requires |m| > 0
    ensures c in m
  {
    assert m.Keys != {};
    var c :| c in m.Keys; c
  }

  /** The total of the counts in a tally. */
  ghost function TotalVotes(m: map<nat, nat>): nat
    decreases |m|
  {
    if |m| == 0 then 0
    else
      var c := AnyClass(m);
      assert |m - {c}| == |m| - 1;
      m[c] + TotalVotes(m - {c})
  }

  lemma {:induction false} TotalVotesRemove(m: map<nat, nat>, c: nat)
    requires c in m
    ensures TotalVotes(m) == m[c] + TotalVotes(m - {c})
    decreases |m|
  {
    var d := AnyClass(m);
    if d != c {
      var md, mc := m - {d}, m - {c};
      assert |mc| == |m| - 1 && |md| == |m| - 1;
      TotalVotesRemove(md, c);
      TotalVotesRemove(mc, d);
      assert md - {c} == mc - {d};
    }
  }

  /** Counting one more vote for `v` adds one to the total. */
  lemma TotalVotesIncrement(m: map<nat, nat>, v: nat)
    ensures TotalVotes(m[v := (if v in m then m[v] else 0) + 1]) == TotalVotes(m) + 1
  {
    var m' := m[v := (if v in m then m[v] else 0) + 1];
    TotalVotesRemove(m', v);
    if v in m {
      TotalVotesRemove(m, v);
      assert m' - {v} == m - {v};
    } else {
      assert m' - {v} == m;
    }
  }

  /** The vote counts add up to the number of trees that voted. */
  lemma {:induction false} TallyCountsEveryVote(votes: seq<nat>)
    ensures TotalVotes(Tally(votes)) == |votes|
    decreases |votes|
  {
    if |votes| > 0 {
      var rest := votes[..|votes| - 1];
      TallyCountsEveryVote(rest);
      TotalVotesIncrement(Tally(rest), votes[|votes| - 1]);
    }
  }

  /** The class `predictForestUnfixed` may return for a tally: with no votes it is
      0; otherwise it is one of the classes with the most votes. Go walks the map
      in an unspecified order, so any such class is possible. */
  predicate IsMajorityChoice(m: map<nat, nat>, c: nat) {
    if |m| == 0 then c == 0 else c in m && forall d :: d in m ==> m[d] <= m[c]
  }

  /** The final loop of `predictForestUnfixed`: walk the tally in an unspecified
      order, keeping the first class seen with a strictly larger count. */
  method MostVoted(votes: map<nat, nat>) returns (prediction: nat)
    requires forall c :: c in votes ==> votes[c] > 0
    ensures IsMajorityChoice(votes, prediction)
  {
    var maxVotes: nat := 0;
    prediction := 0;
    var unseen := votes.Keys;
    while unseen != {}
      invariant unseen <= votes.Keys
      invariant forall c :: c in votes && c !in unseen ==> votes[c] <= maxVotes
      invariant maxVotes == 0 ==> prediction == 0
      invariant maxVotes > 0 ==> prediction in votes && votes[prediction] == maxVotes
      invariant unseen != votes.Keys ==> maxVotes > 0
      decreases unseen
    {
      var c :| c in unseen;
      if votes[c] > maxVotes {
        maxVotes := votes[c];
        prediction := c;
      }
      unseen := unseen - {c};
    }
    if |votes| == 0 {
      assert votes == map[];
    } else {
      assert votes.Keys != {};
    }
  }

  /** `predictForestUnfixed`. */
  method PredictForestUnfixed(forest: seq<Tree>, sample: seq<real>) returns (r: Result<nat, ForestError>)
    requires WellFormedForest(forest)
    ensures HardVotes(TreeOutcomes(forest, sample)).Err? ==> r == Err(HardVotes(TreeOutcomes(forest, sample)).error)
    ensures HardVotes(TreeOutcomes(forest, sample)).Ok? ==>
              r.Ok? && IsMajorityChoice(Tally(HardVotes(TreeOutcomes(forest, sample)).value), r.value)
  {
    ghost var outcomes := TreeOutcomes(forest, sample);
    var votes: map<nat, nat> := map[];
    ghost var cast: seq<nat> := [];
    for i := 0 to |forest|
      invariant HardVotes(outcomes[..i]) == Ok(cast)
      invariant votes == Tally(cast)
    {
      var probabilities := PredictTree(forest[i], sample);
      assert probabilities == outcomes[i];
      HardVotesStep(outcomes, i, cast);
      if probabilities.Err? {
        HardVotesErrorPersists(outcomes, i + 1);
        return Err(TreeFailed(i, probabilities.error));
      }
      var maxIdx := TreeVote(probabilities.value);
      votes := votes[maxIdx := (if maxIdx in votes then votes[maxIdx] else 0) + 1];
      TallyStep(cast, maxIdx);
      cast := cast + [maxIdx];
    }
    assert outcomes[..|forest|] == outcomes;
    TallyMeaning(cast);
    var prediction := MostVoted(votes);
    return Ok(prediction);
  }

  // ---------------------------------------------------------------------------
  // Soft votes

  /** The probability vectors of the trees whose outcomes are `outcomes`, or the
      error the loop of `predictForestFixed` stops at first: a failing tree, or a
      tree whose class count is not `numClasses`. */
  function ClassVectors(outcomes: seq<Outcome>, numClasses: nat): (r: Result<seq<seq<real>>, ForestError>)
    ensures r.Ok? ==> |r.value| == |outcomes| && forall i :: 0 <= i < |outcomes| ==> |r.value[i]| == numClasses
    ensures r.Err? ==> (r.error.TreeFailed? || r.error.ClassCountMismatch?) && r.error.tree < |outcomes|
  {
    if |outcomes| == 0 then Ok([])
    else
      var last := |outcomes| - 1;
      match ClassVectors(outcomes[..last], numClasses)
      case Err(e) => Err(e)
      case Ok(ps) =>
        match outcomes[last]
        case Err(e) => Err(TreeFailed(last, e))
        case Ok(p) => if |p| != numClasses then Err(ClassCountMismatch(last, |p|, numClasses)) else Ok(ps + [p])
  }

  /** The vectors are collected exactly when every tree succeeds with
      `numClasses` classes; an error names the first tree that fails or has
      another class count, with both counts. */
  lemma {:induction false} ClassVectorsMeaning(outcomes: seq<Outcome>, numClasses: nat)
    ensures ClassVectors(outcomes, numClasses).Ok? <==>
              forall i :: 0 <= i < |outcomes| ==> outcomes[i].Ok? && |outcomes[i].value| == numClasses
    ensures ClassVectors(outcomes, numClasses).Ok? ==>
              forall i :: 0 <= i < |outcomes| ==> outcomes[i] == Ok(ClassVectors(outcomes, numClasses).value[i])
    ensures ClassVectors(outcomes, numClasses).Err? ==>
              var e := ClassVectors(outcomes, numClasses).error;
              && (forall i :: 0 <= i < e.tree ==> outcomes[i].Ok? && |outcomes[i].value| == numClasses)
              && (e.TreeFailed? ==> outcomes[e.tree] == Err(e.cause))
              && (e.ClassCountMismatch? ==>
                    outcomes[e.tree].Ok? && e.classes == |outcomes[e.tree].value| && e.expected == numClasses
                    && e.classes != numClasses)
    decreases |outcomes|
  {
    if |outcomes| > 0 {
      var init := outcomes[..|outcomes| - 1];
      ClassVectorsMeaning(init, numClasses);
      assert forall i :: 0 <= i < |init| ==> init[i] == outcomes[i];
    }
  }

  lemma {:induction false} ClassVectorsErrorPersists(outcomes: seq<Outcome>, numClasses: nat, k: nat)
    requires k <= |outcomes| && ClassVectors(outcomes[..k], numClasses).Err?
    ensures ClassVectors(outcomes, numClasses) == ClassVectors(outcomes[..k], numClasses)
    decreases |outcomes|
  {
    if k < |outcomes| {
      var init := outcomes[..|outcomes| - 1];
      assert init[..k] == outcomes[..k];
      ClassVectorsErrorPersists(init, numClasses, k);
    } else {
      assert outcomes[..k] == outcomes;
    }
  }

  /** The sum over the vectors `ps` of their entry `j`. */
  function ColumnSum(ps: seq<seq<real>>, j: nat): real
    requires forall i :: 0 <= i < |ps| ==> j < |ps[i]|
  {
    if |ps| == 0 then 0.0 else ColumnSum(ps[..|ps| - 1], j) + ps[|ps| - 1][j]
  }

  /** The per-class totals of `numClasses`-long vectors. */
  function ClassTotals(ps: seq<seq<real>>, numClasses: nat): (s: seq<real>)
    requires forall i :: 0 <= i < |ps| ==> |ps[i]| == numClasses
  {
    seq(numClasses, j requires 0 <= j < numClasses => ColumnSum(ps, j))
  }

  /** The averaged probability vector of `predictForestFixed`, or its error. */
  function SoftVoteProbabilities(forest: seq<Tree>, sample: seq<real>): (r: Result<seq<real>, ForestError>)
    requires WellFormedForest(forest)
    ensures r.Ok? ==> |forest| > 0 && TreeProbabilities(forest[0], sample).Ok?
                      && |r.value| == |TreeProbabilities(forest[0], sample).value| > 0
    ensures r == Err(EmptyForest) <==> |forest| == 0
  {
    if |forest| == 0 then Err(EmptyForest)
    else
      match TreeProbabilities(forest[0], sample)
      case Err(e) => Err(FirstTreeFailed(e))
      case Ok(first) =>
        match ClassVectors(TreeOutcomes(forest, sample), |first|)
        case Err(e) => Err(e)
        case Ok(ps) => Ok(DivideAll(ClassTotals(ps, |first|), |forest| as real))
  }

  /** The lowest index of the maximum, scanning from index 0. */
  function ArgMax(a: seq<real>): (k: nat)
    requires |a| > 0
    ensures IsLowestArgMax(a, k)
  {
    if |a| == 1 then 0
    else
      var k := ArgMax(a[..|a| - 1]);
      if a[|a| - 1] > a[k] then |a| - 1 else k
  }

  /** What `predictForestFixed` returns. */
  function SoftVote(forest: seq<Tree>, sample: seq<real>): (r: Result<nat, ForestError>)
    requires WellFormedForest(forest)
    ensures SoftVoteProbabilities(forest, sample).Ok? ==>
              r.Ok? && IsLowestArgMax(SoftVoteProbabilities(forest, sample).value, r.value)
    ensures SoftVoteProbabilities(forest, sample).Err? ==> r == Err(SoftVoteProbabilities(forest, sample).error)
  {
    match SoftVoteProbabilities(forest, sample)
    case Err(e) => Err(e)
    case Ok(avg) => Ok(ArgMax(avg))
  }

  lemma ColumnSumAppend(ps: seq<seq<real>>, p: seq<real>, c: nat)
    requires forall i :: 0 <= i < |ps| ==> c < |ps[i]|
    requires c < |p|
    ensures ColumnSum(ps + [p], c) == ColumnSum(ps, c) + p[c]
  {
    var qs := ps + [p];
    assert qs[..|qs| - 1] == ps;
  }

  /** The inner loop of `predictForestFixed` that adds one tree's vector in. */
  method AddInto(acc: array<real>, p: seq<real>)
    requires acc.Length == |p|
    modifies acc
    ensures forall c :: 0 <= c < |p| ==> acc[c] == old(acc[c]) + p[c]
  {
    for j := 0 to |p|
      invariant forall c :: 0 <= c < j ==> acc[c] == old(acc[c]) + p[c]
      invariant forall c :: j <= c < |p| ==> acc[c] == old(acc[c])
    {
      acc[j] := acc[j] + p[j];
    }
  }

  /** The averaging loop of `predictForestFixed`. */
  method DivideInPlace(a: array<real>, d: real)
    requires d != 0.0
    modifies a
    ensures a[..] == DivideAll(old(a[..]), d)
  {
    for i := 0 to a.Length
      invariant forall c :: 0 <= c < i ==> a[c] == old(a[c]) / d
      invariant forall c :: i <= c < a.Length ==> a[c] == old(a[c])
    {
      a[i] := a[i] / d;
    }
  }

  /** The final arg-max loop of `predictForestFixed`: start at index 0 and move
      only on a strict improvement. */
  method IndexOfMax(a: array<real>) returns (maxIdx: nat)
    requires a.Length > 0
    ensures IsLowestArgMax(a[..], maxIdx)
  {
    maxIdx := 0;
    var maxProb := a[0];
    for i := 1 to a.Length
      invariant maxIdx < i && maxProb == a[maxIdx]
      invariant IsLowestArgMax(a[..i], maxIdx)
    {
      if a[i] > maxProb {
        maxProb := a[i];
        maxIdx := i;
      }
    }
    assert a[..a.Length] == a[..];
  }

  /** `predictForestFixed`. */
  method PredictForestFixed(forest: seq<Tree>, sample: seq<real>) returns (r: Result<nat, ForestError>)
    requires WellFormedForest(forest)
    ensures r == SoftVote(forest, sample)
  {
    if |forest| == 0 {
      return Err(EmptyForest);
    }
    var firstProbs := PredictTree(forest[0], sample);
    if firstProbs.Err? {
      return Err(FirstTreeFailed(firstProbs.error));
    }
    var numClasses := |firstProbs.value|;
    var classProbabilities := new real[numClasses](_ => 0.0);
    ghost var outcomes := TreeOutcomes(forest, sample);
    ghost var ps: seq<seq<real>> := [];

    for i := 0 to |forest|
      invariant ClassVectors(outcomes[..i], numClasses) == Ok(ps)
      invariant forall c :: 0 <= c < numClasses ==> classProbabilities[c] == ColumnSum(ps, c)
    {
      PrefixStep(outcomes, i);
      var treeProbabilities := PredictTree(forest[i], sample);
      if treeProbabilities.Err? {
        ClassVectorsErrorPersists(outcomes, numClasses, i + 1);
        return Err(TreeFailed(i, treeProbabilities.error));
      }
      if |treeProbabilities.value| != numClasses {
        ClassVectorsErrorPersists(outcomes, numClasses, i + 1);
        return Err(ClassCountMismatch(i, |treeProbabilities.value|, numClasses));
      }
      AddInto(classProbabilities, treeProbabilities.value);
      forall c | 0 <= c < numClasses {
        ColumnSumAppend(ps, treeProbabilities.value, c);
      }
      ps := ps + [treeProbabilities.value];
    }
    assert outcomes[..|forest|] == outcomes;
    assert classProbabilities[..] == ClassTotals(ps, numClasses);

    DivideInPlace(classProbabilities, |forest| as real);
    var maxIdx := IndexOfMax(classProbabilities);
    LowestArgMaxUnique(classProbabilities[..], maxIdx, ArgMax(classProbabilities[..]));
    return Ok(maxIdx);
  }
}
