/** `normalize_column`: the affine rescale of a numeric column onto [0, 1],
    or onto [-1, 1] when `center_at_zero` is set, over exact reals. */
module Normalizer {

  /** `np.min` of a non-empty column: a lower bound that the column attains. */
  function MinOf(s: seq<real>): (m: real)
    requires |s| > 0
    ensures forall i :: 0 <= i < |s| ==> m <= s[i]
  {
    if |s| == 1 then s[0]
    else
      var rest := MinOf(s[1..]);
      assert forall i :: 1 <= i < |s| ==> s[i] == s[1..][i - 1];
      if s[0] <= rest then s[0] else rest
  }

  /** The minimum is an entry of the column. */
  lemma {:induction false} MinOfAttained(s: seq<real>)
    requires |s| > 0
    ensures exists i :: 0 <= i < |s| && s[i] == MinOf(s)
  {
    if |s| == 1 || s[0] <= MinOf(s[1..]) {
      assert s[0] == MinOf(s);
    } else {
      MinOfAttained(s[1..]);
      var i :| 0 <= i < |s[1..]| && s[1..][i] == MinOf(s[1..]);
      assert s[i + 1] == MinOf(s);
    }
  }

  /** `np.max` of a non-empty column: an upper bound that the column attains. */
  function MaxOf(s: seq<real>): (m: real)
    requires |s| > 0
    ensures forall i :: 0 <= i < |s| ==> s[i] <= m
  {
    if |s| == 1 then s[0]
    else
      var rest := MaxOf(s[1..]);
      assert forall i :: 1 <= i < |s| ==> s[i] == s[1..][i - 1];
      if s[0] >= rest then s[0] else rest
  }

  /** The maximum is an entry of the column. */
  lemma {:induction false} MaxOfAttained(s: seq<real>)
    requires |s| > 0
    ensures exists i :: 0 <= i < |s| && s[i] == MaxOf(s)
  {
    if |s| == 1 || s[0] >= MaxOf(s[1..]) {
      assert s[0] == MaxOf(s);
    } else {
      MaxOfAttained(s[1..]);
      var i :| 0 <= i < |s[1..]| && s[1..][i] == MaxOf(s[1..]);
      assert s[i + 1] == MaxOf(s);
    }
  }

  /** A column the rescale is defined on: not empty and not constant. */
  predicate Normalizable(s: seq<real>)
  {
    |s| > 0 && MinOf(s) < MaxOf(s)
  }

  /** Where a value `v` of a column with extremes `lo < hi` is sent: the
      position of `v` along [lo, hi] as a fraction, or that fraction
      stretched onto [-1, 1]. */
  function Rescale(v: real, lo: real, hi: real, centerAtZero: bool): real
    requires lo < hi
  {
    if centerAtZero then 2.0 * (v - lo) / (hi - lo) - 1.0 else (v - lo) / (hi - lo)
  }

  /** The column `normalize_column` returns, as a specification. */
  function Normalized(s: seq<real>, centerAtZero: bool): (r: seq<real>)
    requires Normalizable(s)
    ensures |r| == |s|
    ensures forall i :: 0 <= i < |s| ==> r[i] == Rescale(s[i], MinOf(s), MaxOf(s), centerAtZero)
  {
    seq(|s|, i requires 0 <= i < |s| => Rescale(s[i], MinOf(s), MaxOf(s), centerAtZero))
  }

  /** Every entry lowered by `c`. */
  function Shifted(s: seq<real>, c: real): (r: seq<real>)
    ensures |r| == |s| && forall j :: 0 <= j < |s| ==> r[j] == s[j] - c
  {
    seq(|s|, j requires 0 <= j < |s| => s[j] - c)
  }

  /** Every entry multiplied by `c`. */
  function Scaled(s: seq<real>, c: real): (r: seq<real>)
    ensures |r| == |s| && forall j :: 0 <= j < |s| ==> r[j] == s[j] * c
  {
    seq(|s|, j requires 0 <= j < |s| => s[j] * c)
  }

  /** numpy's in-place `a -= c`. */
  method SubtractInPlace(a: array<real>, c: real)
    modifies a
    ensures a[..] == Shifted(old(a[..]), c)
  {
    for k := 0 to a.Length
      invariant forall j :: 0 <= j < k ==> a[j] == old(a[j]) - c
      invariant forall j :: k <= j < a.Length ==> a[j] == old(a[j])
    {
      a[k] := a[k] - c;
    }
  }

  /** numpy's in-place `a *= c`. */
  method MultiplyInPlace(a: array<real>, c: real)
    modifies a
    ensures a[..] == Scaled(old(a[..]), c)
  {
    for k := 0 to a.Length
      invariant forall j :: 0 <= j < k ==> a[j] == old(a[j]) * c
      invariant forall j :: k <= j < a.Length ==> a[j] == old(a[j])
    {
      a[k] := a[k] * c;
    }
    assert forall j :: 0 <= j < a.Length ==> a[..][j] == Scaled(old(a[..]), c)[j];
  }

  /** The rescale as the source performs it: copy the column into a fresh
      float array, subtract the minimum in place, then multiply in place by
      `1 / (max - min)`, or by `2 / (max - min)` followed by subtracting 1. */
  method NormalizeColumn(column: seq<real>, centerAtZero: bool) returns (a: array<real>)
    requires Normalizable(column)
    ensures fresh(a)
    ensures a.Length == |column|
    ensures a[..] == Normalized(column, centerAtZero)
  {
    a := new real[|column|](i requires 0 <= i < |column| => column[i]);
    assert a[..] == column;
    var amax, amin := MaxOf(column), MinOf(column);
    SubtractInPlace(a, amin);
    if centerAtZero {
      MultiplyInPlace(a, 2.0 / (amax - amin));
      SubtractInPlace(a, 1.0);
    } else {
      MultiplyInPlace(a, 1.0 / (amax - amin));
    }
    assert a[..] == InPlaceSteps(column, amin, amax, centerAtZero);
    InPlaceStepsNormalize(column, centerAtZero);
  }

  /** The in-place steps of the source, applied to a whole column with
      extremes `lo < hi`. */
  function InPlaceSteps(s: seq<real>, lo: real, hi: real, centerAtZero: bool): (r: seq<real>)
    requires lo < hi
    ensures |r| == |s|
  {
    if centerAtZero then Shifted(Scaled(Shifted(s, lo), 2.0 / (hi - lo)), 1.0)
    else Scaled(Shifted(s, lo), 1.0 / (hi - lo))
  }

  /** Entry `j` of the in-place steps is the rescale of entry `j`. */
  lemma InPlaceStepAt(s: seq<real>, lo: real, hi: real, centerAtZero: bool, j: nat)
    requires lo < hi && j < |s|
    ensures InPlaceSteps(s, lo, hi, centerAtZero)[j] == Rescale(s[j], lo, hi, centerAtZero)
  {
    if centerAtZero {
      CenteredStep(s, lo, hi, j);
    } else {
      DefaultStep(s, lo, hi, j);
    }
  }

  /** One entry of subtract, multiply by `2 / (hi - lo)`, subtract 1. */
  lemma CenteredStep(s: seq<real>, lo: real, hi: real, j: nat)
    requires lo < hi && j < |s|
    ensures Shifted(Scaled(Shifted(s, lo), 2.0 / (hi - lo)), 1.0)[j] == Rescale(s[j], lo, hi, true)
  {
    var shifted := Shifted(s, lo);
    assert Scaled(shifted, 2.0 / (hi - lo))[j] == shifted[j] * (2.0 / (hi - lo));
    RescaleSteps(s[j], lo, hi);
  }

  /** One entry of subtract, multiply by `1 / (hi - lo)`. */
  lemma DefaultStep(s: seq<real>, lo: real, hi: real, j: nat)
    requires lo < hi && j < |s|
    ensures Scaled(Shifted(s, lo), 1.0 / (hi - lo))[j] == Rescale(s[j], lo, hi, false)
  {
    RescaleSteps(s[j], lo, hi);
  }

  /** The in-place steps of the source compute the rescale. */
  lemma InPlaceStepsNormalize(s: seq<real>, centerAtZero: bool)
    requires Normalizable(s)
    ensures InPlaceSteps(s, MinOf(s), MaxOf(s), centerAtZero) == Normalized(s, centerAtZero)
  {
    var steps, r := InPlaceSteps(s, MinOf(s), MaxOf(s), centerAtZero), Normalized(s, centerAtZero);
    forall j | 0 <= j < |s|
      ensures steps[j] == r[j]
    {
      InPlaceStepAt(s, MinOf(s), MaxOf(s), centerAtZero, j);
    }
    assert steps == r;
  }

  /** The source's order of operations computes the rescale. */
  lemma RescaleSteps(v: real, lo: real, hi: real)
    requires lo < hi
    ensures (v - lo) * (1.0 / (hi - lo)) == Rescale(v, lo, hi, false)
    ensures (v - lo) * (2.0 / (hi - lo)) - 1.0 == Rescale(v, lo, hi, true)
  {
    ScaleByFactor(v - lo, hi - lo, 1.0);
    ScaleByFactor(v - lo, hi - lo, 2.0);
  }

  /** Multiplying by `c / w` is dividing `c` times the value by `w`. */
  lemma ScaleByFactor(x: real, w: real, c: real)
    requires w > 0.0
    ensures x * (c / w) == c * x / w
  {
  }
  /** The fraction `(v - lo) / (hi - lo)` and its stretched form. */
  lemma RescaleFraction(v: real, lo: real, hi: real)
    requires lo < hi
    ensures Rescale(v, lo, hi, true) == 2.0 * Rescale(v, lo, hi, false) - 1.0
    ensures Rescale(v, lo, hi, false) * (hi - lo) == v - lo
  {
    var f := (v - lo) / (hi - lo);
    assert 2.0 * (v - lo) / (hi - lo) == 2.0 * f;
  }

  /** A product of two positive reals is positive. */
  lemma MulPositive(x: real, y: real)
    requires x > 0.0 && y > 0.0
    ensures x * y > 0.0
  {
  }

  /** A positive factor can be cancelled from both sides of `<=`. */
  lemma CancelPositive(x: real, y: real, w: real, a: real, b: real)
    requires w > 0.0 && x * w == a && y * w == b && a <= b
    ensures x <= y
  {
    if x > y {
      MulPositive(x - y, w);
    }
  }

  /** The ends of [lo, hi] go to the ends of the target range. */
  lemma RescaleEnds(lo: real, hi: real, centerAtZero: bool)
    requires lo < hi
    ensures Rescale(lo, lo, hi, centerAtZero) == (if centerAtZero then -1.0 else 0.0)
    ensures Rescale(hi, lo, hi, centerAtZero) == 1.0
  {
    RescaleFraction(lo, lo, hi);
    RescaleFraction(hi, lo, hi);
    var f := Rescale(hi, lo, hi, false);
    CancelPositive(f, 1.0, hi - lo, hi - lo, hi - lo);
    CancelPositive(1.0, f, hi - lo, hi - lo, hi - lo);
  }

  /** Values inside [lo, hi] land inside the target range. */
  lemma RescaleBounds(v: real, lo: real, hi: real)
    requires lo <= v <= hi && lo < hi
    ensures 0.0 <= Rescale(v, lo, hi, false) <= 1.0
    ensures -1.0 <= Rescale(v, lo, hi, true) <= 1.0
  {
    RescaleFraction(v, lo, hi);
    var f := Rescale(v, lo, hi, false);
    CancelPositive(0.0, f, hi - lo, 0.0, v - lo);
    CancelPositive(f, 1.0, hi - lo, v - lo, hi - lo);
  }

  /** The rescale is strictly increasing in `v`. */
  lemma RescaleMonotone(v: real, w: real, lo: real, hi: real, centerAtZero: bool)
    requires lo < hi
    ensures v <= w <==> Rescale(v, lo, hi, centerAtZero) <= Rescale(w, lo, hi, centerAtZero)
    ensures v < w <==> Rescale(v, lo, hi, centerAtZero) < Rescale(w, lo, hi, centerAtZero)
  {
    RescaleFraction(v, lo, hi);
    RescaleFraction(w, lo, hi);
    var f, g := Rescale(v, lo, hi, false), Rescale(w, lo, hi, false);
    if v <= w {
      CancelPositive(f, g, hi - lo, v - lo, w - lo);
    } else {
      CancelPositive(g, f, hi - lo, w - lo, v - lo);
    }
    if f <= g {
      assert f * (hi - lo) <= g * (hi - lo) by {
        if f < g {
          MulPositive(g - f, hi - lo);
          assert (g - f) * (hi - lo) == g * (hi - lo) - f * (hi - lo);
        }
      }
    }
    if g <= f {
      assert g * (hi - lo) <= f * (hi - lo) by {
        if g < f {
          MulPositive(f - g, hi - lo);
          assert (f - g) * (hi - lo) == f * (hi - lo) - g * (hi - lo);
        }
      }
    }
  }

  /** Default mode lands in [0, 1], centred mode in [-1, 1]. */
  lemma NormalizedRange(s: seq<real>, centerAtZero: bool, i: nat)
    requires Normalizable(s) && i < |s|
    ensures !centerAtZero ==> 0.0 <= Normalized(s, false)[i] <= 1.0
    ensures centerAtZero ==> -1.0 <= Normalized(s, true)[i] <= 1.0
  {
    RescaleBounds(s[i], MinOf(s), MaxOf(s));
  }

  /** The minimum goes to the low end of the range and the maximum to the
      high end; both ends are therefore reached. */
  lemma NormalizedExtremes(s: seq<real>, centerAtZero: bool)
    requires Normalizable(s)
    ensures forall i :: 0 <= i < |s| && s[i] == MinOf(s) ==>
      Normalized(s, centerAtZero)[i] == (if centerAtZero then -1.0 else 0.0)
    ensures forall i :: 0 <= i < |s| && s[i] == MaxOf(s) ==> Normalized(s, centerAtZero)[i] == 1.0
    ensures exists i :: 0 <= i < |s| && Normalized(s, centerAtZero)[i] == (if centerAtZero then -1.0 else 0.0)
    ensures exists i :: 0 <= i < |s| && Normalized(s, centerAtZero)[i] == 1.0
  {
    var lo, hi := MinOf(s), MaxOf(s);
    var r := Normalized(s, centerAtZero);
    RescaleEnds(lo, hi, centerAtZero);
    MinOfAttained(s);
    MaxOfAttained(s);
    var iMin :| 0 <= iMin < |s| && s[iMin] == lo;
    var iMax :| 0 <= iMax < |s| && s[iMax] == hi;
    assert r[iMin] == Rescale(lo, lo, hi, centerAtZero);
    assert r[iMax] == Rescale(hi, lo, hi, centerAtZero);
  }

  /** The rescale is strictly increasing, so it keeps the order between any
      two entries of the column. */
  lemma NormalizedMonotone(s: seq<real>, centerAtZero: bool, i: nat, j: nat)
    requires Normalizable(s) && i < |s| && j < |s|
    ensures s[i] <= s[j] <==> Normalized(s, centerAtZero)[i] <= Normalized(s, centerAtZero)[j]
    ensures s[i] < s[j] <==> Normalized(s, centerAtZero)[i] < Normalized(s, centerAtZero)[j]
  {
    RescaleMonotone(s[i], s[j], MinOf(s), MaxOf(s), centerAtZero);
  }

  /** The centred column is the default one stretched onto [-1, 1]. */
  lemma CenteredIsStretched(s: seq<real>, i: nat)
    requires Normalizable(s) && i < |s|
    ensures Normalized(s, true)[i] == 2.0 * Normalized(s, false)[i] - 1.0
  {
    RescaleFraction(s[i], MinOf(s), MaxOf(s));
  }
}
