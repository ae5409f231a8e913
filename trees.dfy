/** One decision tree of the exported forest and its evaluation for one sample
    (`predictTree`, go/main.go). */
module Trees {
  import opened Results

  /** A tree in scikit-learn's parallel-array encoding. Node 0 is the root; node
      `i` is a leaf exactly when `childrenLeft[i] == -1`. An internal node sends a
      sample to `childrenLeft[i]` when `sample[feature[i]] <= threshold[i]` and to
      `childrenRight[i]` otherwise. `value[i]` holds the per-class sample counts. */
  datatype Tree = Tree(
    childrenLeft: seq<int>,
    childrenRight: seq<int>,
    feature: seq<int>,
    threshold: seq<real>,
    value: seq<seq<real>>)

  datatype TreeError =
    | FeatureOutOfRange(feature: int, sampleLength: nat)   // a visited split names a missing feature
    | EmptyLeaf                                            // the reached leaf's counts sum to 0

  const Leaf := -1

  function Size(t: Tree): nat {
    |t.childrenLeft|
  }

  predicate IsLeaf(t: Tree, node: nat)
    requires node < Size(t)
  {
    t.childrenLeft[node] == Leaf
  }

  /** The shape of an exported tree: the five arrays have one entry per node, and
      every internal node names a feature and two children that come after it, so
      the walk from the root always reaches a leaf. */
  predicate WellFormed(t: Tree) {
    && Size(t) > 0
    && |t.childrenRight| == Size(t)
    && |t.feature| == Size(t)
    && |t.threshold| == Size(t)
    && |t.value| == Size(t)
    && forall i :: 0 <= i < Size(t) && t.childrenLeft[i] != Leaf ==>
         && i < t.childrenLeft[i] < Size(t)
         && i < t.childrenRight[i] < Size(t)
         && 0 <= t.feature[i]
  }

  /** The routing rule at an internal node: ties go left. */
  function Child(t: Tree, sample: seq<real>, node: nat): nat
    requires WellFormed(t) && node < Size(t) && !IsLeaf(t, node)
    requires t.feature[node] < |sample|
  {
    if sample[t.feature[node]] <= t.threshold[node] then t.childrenLeft[node] else t.childrenRight[node]
  }

  /** The leaf that `sample` reaches from `node`, or the error raised at the first
      visited split whose feature index is not below the sample length. */
  function Descend(t: Tree, sample: seq<real>, node: nat): (r: Result<nat, TreeError>)
    requires WellFormed(t) && node < Size(t)
    ensures r.Ok? ==> node <= r.value < Size(t) && IsLeaf(t, r.value)
    ensures r.Err? ==> r.error.FeatureOutOfRange? && r.error.sampleLength == |sample| && r.error.feature >= |sample|
    decreases Size(t) - node
  {
    if IsLeaf(t, node) then Ok(node)
    else if t.feature[node] >= |sample| then Err(FeatureOutOfRange(t.feature[node], |sample|))
    else Descend(t, sample, Child(t, sample, node))
  }

  /** The internal nodes, in visiting order, whose `feature` (and, when that is in
      range, `threshold`) the walk from `node` reads. */
  function Splits(t: Tree, sample: seq<real>, node: nat): (p: seq<nat>)
    requires WellFormed(t) && node < Size(t)
    ensures forall k :: 0 <= k < |p| ==> node <= p[k] < Size(t) && !IsLeaf(t, p[k])
    decreases Size(t) - node
  {
    if IsLeaf(t, node) then []
    else if t.feature[node] >= |sample| then [node]
    else [node] + Splits(t, sample, Child(t, sample, node))
  }

  function Sum(s: seq<real>): real {
    if |s| == 0 then 0.0 else Sum(s[..|s| - 1]) + s[|s| - 1]
  }

  /** Every entry of `v` divided by `d`. */
  function DivideAll(v: seq<real>, d: real): seq<real>
    requires d != 0.0
  {
    seq(|v|, i requires 0 <= i < |v| => v[i] / d)
  }

  /** What `predictTree` returns: the reached leaf's counts divided by their sum. */
  function TreeProbabilities(t: Tree, sample: seq<real>): (r: Result<seq<real>, TreeError>)
    requires WellFormed(t)
    ensures r.Ok? ==> |r.value| > 0
    ensures r.Ok? ==> Descend(t, sample, 0).Ok? && |r.value| == |t.value[Descend(t, sample, 0).value]|
  {
    match Descend(t, sample, 0)
    case Err(e) => Err(e)
    case Ok(leaf) =>
      var total := Sum(t.value[leaf]);
      if total == 0.0 then Err(EmptyLeaf) else Ok(DivideAll(t.value[leaf], total))
  }

  /** `predictTree`: walk to a leaf, sum its counts, then fill the probability array. */
  method PredictTree(t: Tree, sample: seq<real>) returns (r: Result<seq<real>, TreeError>)
    requires WellFormed(t)
    ensures r == TreeProbabilities(t, sample)
  {
    var node: nat := 0;
    while !IsLeaf(t, node)
      invariant node < Size(t)
      invariant Descend(t, sample, node) == Descend(t, sample, 0)
      decreases Size(t) - node
    {
      var feature := t.feature[node];
      if feature >= |sample| {
        return Err(FeatureOutOfRange(feature, |sample|));
      }
      if sample[feature] <= t.threshold[node] {
        node := t.childrenLeft[node];
      } else {
        node := t.childrenRight[node];
      }
    }
    var values := t.value[node];
    var total := 0.0;
    for i := 0 to |values|
      invariant total == Sum(values[..i])
    {
      assert values[..i + 1][..i] == values[..i];
      total := total + values[i];
    }
    assert values[..|values|] == values;
    if total == 0.0 {
      return Err(EmptyLeaf);
    }
    var probabilities := new real[|values|];
    for i := 0 to |values|
      invariant forall k :: 0 <= k < i ==> probabilities[k] == values[k] / total
    {
      probabilities[i] := values[i] / total;
    }
    assert probabilities[..] == DivideAll(values, total);
    return Ok(probabilities[..]);
  }

  // ---------------------------------------------------------------------------
  // Routing: which nodes the walk reads, and when it fails

  /** The walk from `node` visits `Splits` in order: it starts at `node`, each step
      follows the `<=`-goes-left rule, every split but the last has its feature in
      range, and the outcome is decided by the last split (or is `node` itself when
      that is a leaf). */
  lemma {:induction false} RoutingPath(t: Tree, sample: seq<real>, node: nat)
    requires WellFormed(t) && node < Size(t)
    ensures var p := Splits(t, sample, node);
      && (p == [] <==> IsLeaf(t, node))
      && (p != [] ==> p[0] == node)
      && (forall k :: 0 <= k < |p| - 1 ==> t.feature[p[k]] < |sample| && p[k + 1] == Child(t, sample, p[k]))
      && (Descend(t, sample, node).Err? <==> p != [] && t.feature[p[|p| - 1]] >= |sample|)
      && (Descend(t, sample, node).Err? ==>
            Descend(t, sample, node) == Err(FeatureOutOfRange(t.feature[p[|p| - 1]], |sample|)))
      && (Descend(t, sample, node).Ok? && p != [] ==>
            Descend(t, sample, node).value == Child(t, sample, p[|p| - 1]))
    decreases Size(t) - node
  {
    if !IsLeaf(t, node) && t.feature[node] < |sample| {
      var c := Child(t, sample, node);
      RoutingPath(t, sample, c);
      var q := Splits(t, sample, c);
      var p := Splits(t, sample, node);
      assert p == [node] + q;
      if q != [] {
        assert p[|p| - 1] == q[|q| - 1];
      }
    }
  }

  /** Two trees with the same structure and counts that agree on `feature` and
      `threshold` at every split the walk of `t` reads. */
  predicate AgreeOnPath(t: Tree, u: Tree, sample: seq<real>, node: nat)
    requires WellFormed(t) && WellFormed(u) && node < Size(t)
  {
    && u.childrenLeft == t.childrenLeft
    && u.childrenRight == t.childrenRight
    && u.value == t.value
    && forall k :: k in Splits(t, sample, node) ==>
         u.feature[k] == t.feature[k] && u.threshold[k] == t.threshold[k]
  }

  lemma {:induction false} DescendReadsOnlyPath(t: Tree, u: Tree, sample: seq<real>, node: nat)
    requires WellFormed(t) && WellFormed(u) && node < Size(t)
    requires AgreeOnPath(t, u, sample, node)
    ensures Descend(u, sample, node) == Descend(t, sample, node)
    decreases Size(t) - node
  {
    if !IsLeaf(t, node) {
      assert node in Splits(t, sample, node);
      if t.feature[node] < |sample| {
        var c := Child(t, sample, node);
        assert Child(u, sample, node) == c;
        assert AgreeOnPath(t, u, sample, c) by {
          forall k | k in Splits(t, sample, c)
            ensures u.feature[k] == t.feature[k] && u.threshold[k] == t.threshold[k]
          {
            assert k in Splits(t, sample, node);
          }
        }
        DescendReadsOnlyPath(t, u, sample, c);
      }
    }
  }

  /** `predictTree` reads `feature` and `threshold` only on the path it walks:
      changing them anywhere else changes neither the result nor the error. */
  lemma ReadsOnlyPath(t: Tree, u: Tree, sample: seq<real>)
    requires WellFormed(t) && WellFormed(u)
    requires AgreeOnPath(t, u, sample, 0)
    ensures TreeProbabilities(u, sample) == TreeProbabilities(t, sample)
  {
    DescendReadsOnlyPath(t, u, sample, 0);
  }

  /** A tree whose root is a leaf returns the root's normalised counts for every
      sample, whatever its `feature` and `threshold` arrays hold. */
  lemma RootLeaf(t: Tree, u: Tree, sample: seq<real>)
    requires WellFormed(t) && WellFormed(u) && IsLeaf(t, 0)
    requires u.childrenLeft == t.childrenLeft && u.childrenRight == t.childrenRight && u.value == t.value
    ensures TreeProbabilities(u, sample) == TreeProbabilities(t, sample)
    ensures TreeProbabilities(t, sample) ==
              if Sum(t.value[0]) == 0.0 then Err(EmptyLeaf) else Ok(DivideAll(t.value[0], Sum(t.value[0])))
  {
    assert Splits(t, sample, 0) == [];
    ReadsOnlyPath(t, u, sample);
  }

  // ---------------------------------------------------------------------------
  // Leaf normalisation

  lemma {:induction false} SumDivided(v: seq<real>, d: real)
    requires d != 0.0
    ensures Sum(DivideAll(v, d)) == Sum(v) / d
    decreases |v|
  {
    if |v| > 0 {
      var w := v[..|v| - 1];
      SumDivided(w, d);
      assert DivideAll(v, d)[..|v| - 1] == DivideAll(w, d);
      assert DivideAll(v, d)[|v| - 1] == v[|v| - 1] / d;
      QuotientsAdd(Sum(w), v[|v| - 1], d);
    }
  }

  lemma QuotientsAdd(a: real, b: real, d: real)
    requires d != 0.0
    ensures a / d + b / d == (a + b) / d
  {
  }

  predicate NonNegative(v: seq<real>) {
    forall i :: 0 <= i < |v| ==> 0.0 <= v[i]
  }

  lemma {:induction false} EntryAtMostSum(v: seq<real>, i: nat)
    requires NonNegative(v) && i < |v|
    ensures 0.0 <= v[i] <= Sum(v) && 0.0 <= Sum(v)
    decreases |v|
  {
    var w := v[..|v| - 1];
    assert NonNegative(w);
    if i < |v| - 1 {
      EntryAtMostSum(w, i);
    } else if |w| > 0 {
      EntryAtMostSum(w, 0);
    }
  }

  /** Every leaf's counts are non-negative, as in an exported tree. */
  predicate NonNegativeLeaves(t: Tree)
    requires WellFormed(t)
  {
    forall i :: 0 <= i < Size(t) && IsLeaf(t, i) ==> NonNegative(t.value[i])
  }

  /** A successful `predictTree` result is a probability vector: it sums to 1 and,
      when the counts are non-negative, every entry lies in [0, 1]. */
  lemma ProbabilitiesSumToOne(t: Tree, sample: seq<real>)
    requires WellFormed(t) && TreeProbabilities(t, sample).Ok?
    ensures Sum(TreeProbabilities(t, sample).value) == 1.0
    ensures NonNegativeLeaves(t) ==> NonNegative(TreeProbabilities(t, sample).value)
    ensures NonNegativeLeaves(t) ==>
              forall k :: 0 <= k < |TreeProbabilities(t, sample).value| ==> TreeProbabilities(t, sample).value[k] <= 1.0
  {
    var leaf := Descend(t, sample, 0).value;
    var v := t.value[leaf];
    var p := TreeProbabilities(t, sample).value;
    assert p == DivideAll(v, Sum(v));
    SumDivided(v, Sum(v));
    SelfQuotient(Sum(v));
    if NonNegativeLeaves(t) {
      forall k | 0 <= k < |p| ensures 0.0 <= p[k] <= 1.0 {
        EntryAtMostSum(v, k);
        assert p[k] == v[k] / Sum(v);
        QuotientAtMostOne(v[k], Sum(v));
      }
    }
  }

  lemma SelfQuotient(d: real)
    requires d != 0.0
    ensures d / d == 1.0
  {
  }

  lemma QuotientAtMostOne(x: real, s: real)
    requires 0.0 <= x <= s && s != 0.0
    ensures 0.0 <= x / s <= 1.0
  {
    assert x / s * s == x;
  }

  /** A vector with a positive sum has a positive entry. */
  lemma {:induction false} PositiveEntry(v: seq<real>)
    requires Sum(v) > 0.0
    ensures exists j :: 0 <= j < |v| && v[j] > 0.0
    decreases |v|
  {
    var w := v[..|v| - 1];
    if v[|v| - 1] <= 0.0 {
      PositiveEntry(w);
      var j :| 0 <= j < |w| && w[j] > 0.0;
      assert v[j] == w[j];
    }
  }
}
