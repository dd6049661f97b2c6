/** The point thinning of the time-series chart: keep every `step`-th point. */
module Downsampling {

  /** The divisor in `Math.floor(n / 500)`. */
  const PointBudget: nat := 500

  /** `Math.max(1, Math.floor(n / 500))`. */
  function DownsampleStep(n: nat): (step: nat)
    ensures step >= 1
    ensures n < 2 * PointBudget ==> step == 1
  {
    if n / PointBudget > 1 then n / PointBudget else 1
  }

  /** `xs.filter((_, i) => i % step === 0)`. */
  function KeepEveryStep<T>(xs: seq<T>, step: nat): seq<T>
    requires step >= 1
  {
    if |xs| == 0 then []
    else
      var last := |xs| - 1;
      KeepEveryStep(xs[..last], step) + (if last % step == 0 then [xs[last]] else [])
  }

  function Downsample<T>(xs: seq<T>): seq<T>
  {
    KeepEveryStep(xs, DownsampleStep(|xs|))
  }

  lemma SmallMultiple(x: int, d: int)
    requires d > 0
    requires -d < x * d < d
    ensures x == 0
  {
  }

  lemma DivUnique(a: int, d: int, q: int, r: int)
    requires 0 <= r < d
    requires a == q * d + r
    ensures a / d == q && a % d == r
  {
    var q0 := a / d;
    var r0 := a % d;
    assert q0 * d + r0 == a;
    assert (q - q0) * d == r0 - r;
    SmallMultiple(q - q0, d);
  }

  /** How many multiples of `step` lie below `i + 1`, against how many lie below `i`. */
  lemma CeilStep(i: nat, step: nat)
    requires step >= 1
    ensures (i + step) / step == (i + step - 1) / step + (if i % step == 0 then 1 else 0)
    ensures i % step == 0 ==> ((i + step - 1) / step) * step == i
  {
    var q := i / step;
    var r := i % step;
    assert i == q * step + r;
    if r == 0 {
      DivUnique(i + step - 1, step, q, step - 1);
      DivUnique(i + step, step, q + 1, 0);
    } else {
      DivUnique(i + step - 1, step, q + 1, r - 1);
      DivUnique(i + step, step, q + 1, r);
    }
  }

  /**
    Exactly the indices that are multiples of `step` survive, in order:
    the output has ceil(n / step) points and its `j`-th point is input
    point `j * step`.
  */
  lemma {:induction false} KeepEveryStepExact<T>(xs: seq<T>, step: nat)
    requires step >= 1
    ensures |KeepEveryStep(xs, step)| == (|xs| + step - 1) / step
    ensures forall j :: 0 <= j < |KeepEveryStep(xs, step)| ==>
      j * step < |xs| && KeepEveryStep(xs, step)[j] == xs[j * step]
  {
    if |xs| == 0 {
      DivUnique(step - 1, step, 0, step - 1);
    } else {
      var last := |xs| - 1;
      var prefix := xs[..last];
      KeepEveryStepExact(prefix, step);
      CeilStep(last, step);
      var kept := KeepEveryStep(prefix, step);
      var r := KeepEveryStep(xs, step);
      forall j | 0 <= j < |r|
        ensures j * step < |xs| && r[j] == xs[j * step]
      {
        if j < |kept| {
          assert r[j] == kept[j] == prefix[j * step];
        } else {
          assert last % step == 0 && j == |kept|;
          assert j * step == last;
        }
      }
    }
  }

  /**
    What the time-series chart keeps: the first point always, the points in
    input order, at most 999 points, and every point when there are fewer
    than 1000 (the step is `floor(n / 500)`, which is 1 below 1000).
  */
  lemma DownsampleKeeps<T>(xs: seq<T>)
    ensures |xs| > 0 ==> |Downsample(xs)| > 0 && Downsample(xs)[0] == xs[0]
    ensures |Downsample(xs)| <= 2 * PointBudget - 1
    ensures |xs| < 2 * PointBudget ==> Downsample(xs) == xs
    ensures forall j :: 0 <= j < |Downsample(xs)| ==>
      j * DownsampleStep(|xs|) < |xs| && Downsample(xs)[j] == xs[j * DownsampleStep(|xs|)]
  {
    var n := |xs|;
    var step := DownsampleStep(n);
    KeepEveryStepExact(xs, step);
    var r := Downsample(xs);
    if n > 0 {
      DivUnique(n + step - 1, step, (n + step - 1) / step, (n + step - 1) % step);
      assert |r| >= 1;
    }
    if n < 2 * PointBudget {
      assert step == 1;
      assert |r| == n;
      assert forall j :: 0 <= j < n ==> r[j] == xs[j];
    } else {
      assert step == n / PointBudget;
      StepBound(n, step);
    }
  }

  lemma StepBound(n: nat, step: nat)
    requires n >= 2 * PointBudget
    requires step == n / PointBudget
    ensures (n + step - 1) / step <= 2 * PointBudget - 1
  {
    var q := n / PointBudget;
    assert n < PointBudget * q + PointBudget;
    assert n + step - 1 < (2 * PointBudget - 1) * step + step by {
      assert PointBudget * q + PointBudget - 1 <= (2 * PointBudget - 1) * q;
    }
    var c := (n + step - 1) / step;
    DivUnique(n + step - 1, step, c, (n + step - 1) % step);
    assert c * step <= n + step - 1;
  }
}
