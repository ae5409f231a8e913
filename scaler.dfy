/** The standard scaler that `predictForestFixed`'s samples go through
    (go/main.go:145-151): each feature is shifted by its training mean and
    divided by its training scale. */
module Scaling {

  /** The `mean` and `scale` vectors read from the scaler file. */
  datatype ScalerParams = ScalerParams(mean: seq<real>, scale: seq<real>)

  /** The parameters cover samples of `n` features: the Go loop indexes both
      vectors at every sample position (shorter vectors make it panic), and a
      zero scale would produce an IEEE infinity or NaN, which `real` has not. */
  predicate Covers(params: ScalerParams, n: nat) {
    && n <= |params.mean|
    && n <= |params.scale|
    && forall i :: 0 <= i < n ==> params.scale[i] != 0.0
  }

  /** out[i] = (x[i] - mean[i]) / scale[i]; the scaled value maps back to the
      raw one under the inverse transform. */
  function Standardize(sample: seq<real>, params: ScalerParams): (scaled: seq<real>)
    requires Covers(params, |sample|)
    ensures |scaled| == |sample|
    ensures forall i :: 0 <= i < |sample| ==> scaled[i] * params.scale[i] + params.mean[i] == sample[i]
  {
    seq(|sample|, i requires 0 <= i < |sample| => StandardizeFeature(sample[i], params.mean[i], params.scale[i]))
  }

  /** One feature through the scaler. */
  function StandardizeFeature(x: real, mean: real, scale: real): (y: real)
    requires scale != 0.0
    ensures y * scale + mean == x
  {
    (x - mean) / scale
  }

  /** The inverse transform: x[i] = out[i] * scale[i] + mean[i]. */
  function Unstandardize(scaled: seq<real>, params: ScalerParams): (sample: seq<real>)
    requires |scaled| <= |params.mean| && |scaled| <= |params.scale|
    ensures |sample| == |scaled|
  {
    seq(|scaled|, i requires 0 <= i < |scaled| => scaled[i] * params.scale[i] + params.mean[i])
  }

  /** Scaling then unscaling gives back the raw sample. */
  lemma UnstandardizeStandardize(sample: seq<real>, params: ScalerParams)
    requires Covers(params, |sample|)
    ensures Unstandardize(Standardize(sample, params), params) == sample
  {
    var scaled := Standardize(sample, params);
    assert forall i :: 0 <= i < |sample| ==> Unstandardize(scaled, params)[i] == sample[i];
  }

  /** Unscaling then scaling gives back the scaled sample. */
  lemma StandardizeUnstandardize(scaled: seq<real>, params: ScalerParams)
    requires Covers(params, |scaled|)
    ensures Standardize(Unstandardize(scaled, params), params) == scaled
  {
    var raw := Unstandardize(scaled, params);
    forall i | 0 <= i < |scaled| ensures Standardize(raw, params)[i] == scaled[i] {
      ScaleOfUnscaled(scaled[i], params.mean[i], params.scale[i]);
    }
  }

  lemma ScaleOfUnscaled(y: real, mean: real, scale: real)
    requires scale != 0.0
    ensures StandardizeFeature(y * scale + mean, mean, scale) == y
  {
    assert (y * scale + mean - mean) == y * scale;
  }

  /** Two raw samples with the same scaled image are equal. */
  lemma StandardizeInjective(x: seq<real>, y: seq<real>, params: ScalerParams)
    requires |x| == |y| && Covers(params, |x|)
    requires Standardize(x, params) == Standardize(y, params)
    ensures x == y
  {
    UnstandardizeStandardize(x, params);
    UnstandardizeStandardize(y, params);
  }

  /** On a feature with positive scale the scaler keeps the order of values,
      so a split `x <= t` on raw values is the split `x' <= t'` on scaled ones. */
  lemma StandardizeMonotone(x: real, y: real, mean: real, scale: real)
    requires 0.0 < scale
    ensures x <= y <==> StandardizeFeature(x, mean, scale) <= StandardizeFeature(y, mean, scale)
  {
    var x', y' := StandardizeFeature(x, mean, scale), StandardizeFeature(y, mean, scale);
    if x' <= y' {
      assert x' * scale <= y' * scale;
    }
  }

  /** The identity scaler (mean 0, scale 1) leaves every sample unchanged. */
  lemma IdentityScaler(sample: seq<real>, params: ScalerParams)
    requires Covers(params, |sample|)
    requires forall i :: 0 <= i < |sample| ==> params.mean[i] == 0.0 && params.scale[i] == 1.0
    ensures Standardize(sample, params) == sample
  {
  }

  /** `applyStandardScaler`: fills a fresh slice of the sample's length. */
  method ApplyStandardScaler(sample: seq<real>, params: ScalerParams) returns (scaled: seq<real>)
    requires Covers(params, |sample|)
    ensures scaled == Standardize(sample, params)
  {
    var out := new real[|sample|];
    for i := 0 to |sample|
      invariant forall k :: 0 <= k < i ==> out[k] == StandardizeFeature(sample[k], params.mean[k], params.scale[k])
    {
      out[i] := (sample[i] - params.mean[i]) / params.scale[i];
    }
    scaled := out[..];
  }
}
