/** `normalize_series` and the gender-parity "goodness" transform of the
    index builder. A series is a `seq<Option<real>>`: `None` is a null entry
    (NaN, or ±inf, which the function turns into NaN before anything else);
    `Somes(x)` is `x.dropna()` and its length is `x.notna().sum()`. */
module Normalize {
  import opened Wrappers
  import opened Seqs
  import opened Stats

  /** The non-null entries take at most one value, so min-max scaling has
      nothing to spread: either at most one entry is non-null, or min == max. */
  predicate Flat(x: seq<Option<real>>) {
    forall i, j :: 0 <= i < |x| && 0 <= j < |x| && x[i].Some? && x[j].Some? ==> x[i].value == x[j].value
  }

  /** `(v - mn) / (mx - mn)`, flipped to `1 - …` when lower is better. */
  function Scale(v: real, mn: real, mx: real, higherIsBetter: bool): real
    requires mn < mx
  {
    var s01 := (v - mn) / (mx - mn);
    if higherIsBetter then s01 else 1.0 - s01
  }

  /** A value inside the observed range is scaled into [0, 1]. */
  lemma ScaleBounds(v: real, mn: real, mx: real, higherIsBetter: bool)
    requires mn < mx && mn <= v <= mx
    ensures 0.0 <= Scale(v, mn, mx, higherIsBetter) <= 1.0
  {
    DivLow(v - mn, mx - mn, 0.0);
    DivHigh(v - mn, mx - mn, 1.0);
  }

  /** `normalize_series(x, higher_is_better)`: a series of the same length;
      all zeros (null positions included) when the data is flat; otherwise
      nulls stay null and every other entry is scaled into [0, 1]. */
  function NormalizeSeries(x: seq<Option<real>>, higherIsBetter: bool): (r: seq<Option<real>>)
    ensures |r| == |x|
    ensures Flat(x) ==> forall i :: 0 <= i < |r| ==> r[i] == Some(0.0)
    ensures !Flat(x) ==> forall i :: 0 <= i < |r| ==> (r[i].Some? <==> x[i].Some?)
    ensures forall i :: 0 <= i < |r| && r[i].Some? ==> 0.0 <= r[i].value <= 1.0
  {
    var vs := Somes(x);
    assert forall i :: 0 <= i < |x| && x[i].Some? ==> x[i] in x && x[i].value in vs;
    if |vs| <= 1 then
      seq(|x|, _ => Some(0.0))
    else
      var mn, mx := Min(vs), Max(vs);
      if mn == mx then
        seq(|x|, _ => Some(0.0))
      else
        assert Some(mn) in x && Some(mx) in x;
        assert !Flat(x);
        assert forall i :: 0 <= i < |x| && x[i].Some? ==> 0.0 <= Scale(x[i].value, mn, mx, higherIsBetter) <= 1.0 by {
          forall i | 0 <= i < |x| && x[i].Some?
            ensures 0.0 <= Scale(x[i].value, mn, mx, higherIsBetter) <= 1.0
          {
            ScaleBounds(x[i].value, mn, mx, higherIsBetter);
          }
        }
        seq(|x|, i requires 0 <= i < |x| =>
          if x[i].None? then None else Some(Scale(x[i].value, mn, mx, higherIsBetter)))
  }

  /** Outside the flat case there are two non-null entries with different
      values, so the range is not empty. */
  lemma SpreadWhenNotFlat(x: seq<Option<real>>)
    requires !Flat(x)
    ensures |Somes(x)| > 1 && Min(Somes(x)) < Max(Somes(x))
  {
    var vs := Somes(x);
    var i, j :| 0 <= i < |x| && 0 <= j < |x| && x[i].Some? && x[j].Some? && x[i].value != x[j].value;
    assert x[i] in x && x[j] in x;
    assert x[i].value in vs && x[j].value in vs;
  }

  /** Outside the flat case each non-null entry is scaled against the min
      and max of the non-null entries, and null entries stay null. */
  lemma NormalizeAt(x: seq<Option<real>>, higherIsBetter: bool, i: nat)
    requires !Flat(x) && i < |x|
    ensures |Somes(x)| > 1 && Min(Somes(x)) < Max(Somes(x))
    ensures NormalizeSeries(x, higherIsBetter)[i].Some? == x[i].Some?
    ensures x[i].Some? ==> NormalizeSeries(x, higherIsBetter)[i].value
                           == Scale(x[i].value, Min(Somes(x)), Max(Somes(x)), higherIsBetter)
  {
    SpreadWhenNotFlat(x);
  }

  /** The ends of the range scale to 0 and 1. */
  lemma ScaleEnds(mn: real, mx: real)
    requires mn < mx
    ensures Scale(mn, mn, mx, true) == 0.0 && Scale(mx, mn, mx, true) == 1.0
    ensures Scale(mn, mn, mx, false) == 1.0 && Scale(mx, mn, mx, false) == 0.0
  {
    assert (mx - mn) / (mx - mn) == 1.0;
  }

  /** Scaling is monotone in the scaled value. */
  lemma ScaleMonotone(a: real, b: real, mn: real, mx: real)
    requires mn < mx && a <= b
    ensures Scale(a, mn, mx, true) <= Scale(b, mn, mx, true)
    ensures Scale(a, mn, mx, false) >= Scale(b, mn, mx, false)
  {
    DivMonotone(a - mn, b - mn, mx - mn);
  }

  /** The two extremes of the range: an entry no greater than any other maps
      to 0 and one no smaller than any other maps to 1 (the other way round
      when lower is better). */
  lemma NormalizeEndpoints(x: seq<Option<real>>, lo: nat, hi: nat)
    requires !Flat(x)
    requires lo < |x| && x[lo].Some? && hi < |x| && x[hi].Some?
    requires forall j :: 0 <= j < |x| && x[j].Some? ==> x[lo].value <= x[j].value <= x[hi].value
    ensures NormalizeSeries(x, true)[lo].Some? && NormalizeSeries(x, true)[lo].value == 0.0
    ensures NormalizeSeries(x, true)[hi].Some? && NormalizeSeries(x, true)[hi].value == 1.0
    ensures NormalizeSeries(x, false)[lo].Some? && NormalizeSeries(x, false)[lo].value == 1.0
    ensures NormalizeSeries(x, false)[hi].Some? && NormalizeSeries(x, false)[hi].value == 0.0
  {
    var vs := Somes(x);
    NormalizeAt(x, true, lo);
    NormalizeAt(x, true, hi);
    NormalizeAt(x, false, lo);
    NormalizeAt(x, false, hi);
    assert x[lo].value == Min(vs) && x[hi].value == Max(vs) by {
      assert x[lo] in x && x[hi] in x;
      assert x[lo].value in vs && x[hi].value in vs;
      assert Some(Min(vs)) in x && Some(Max(vs)) in x;
      var a :| 0 <= a < |x| && x[a] == Some(Min(vs));
      var b :| 0 <= b < |x| && x[b] == Some(Max(vs));
    }
    ScaleEnds(Min(vs), Max(vs));
  }

  lemma DivMonotone(a: real, b: real, d: real)
    requires d > 0.0 && a <= b
    ensures a / d <= b / d
  {
    assert b / d - a / d == (b - a) / d;
  }

  /** Scaling preserves the order of the non-null entries, and reverses it
      when lower is better. */
  lemma NormalizeMonotone(x: seq<Option<real>>, i: nat, j: nat)
    requires !Flat(x)
    requires i < |x| && j < |x| && x[i].Some? && x[j].Some? && x[i].value <= x[j].value
    ensures NormalizeSeries(x, true)[i].Some? && NormalizeSeries(x, true)[j].Some?
    ensures NormalizeSeries(x, true)[i].value <= NormalizeSeries(x, true)[j].value
    ensures NormalizeSeries(x, false)[i].Some? && NormalizeSeries(x, false)[j].Some?
    ensures NormalizeSeries(x, false)[i].value >= NormalizeSeries(x, false)[j].value
  {
    var vs := Somes(x);
    NormalizeAt(x, true, i);
    NormalizeAt(x, true, j);
    NormalizeAt(x, false, i);
    NormalizeAt(x, false, j);
    ScaleMonotone(x[i].value, x[j].value, Min(vs), Max(vs));
  }

  /** With lower-is-better the scaled entries are exactly one minus the
      higher-is-better ones (outside the flat case, where both are zeros). */
  lemma NormalizeComplement(x: seq<Option<real>>, i: nat)
    requires !Flat(x) && i < |x|
    ensures NormalizeSeries(x, false)[i].Some? == NormalizeSeries(x, true)[i].Some?
    ensures NormalizeSeries(x, false)[i].Some? ==>
              NormalizeSeries(x, false)[i].value == 1.0 - NormalizeSeries(x, true)[i].value
  {
    NormalizeAt(x, true, i);
    NormalizeAt(x, false, i);
  }

  function Abs(v: real): (r: real)
    ensures r >= 0.0 && (r == v || r == -v)
  {
    if v < 0.0 then -v else v
  }

  /** The gender-parity pre-transform `1 - |g - 1|`: a parity index of 1 is
      ideal, and deviations either way are penalised. */
  function Goodness(g: Option<real>): (r: Option<real>)
    ensures r.Some? <==> g.Some?
    ensures r.Some? ==> r.value <= 1.0
    ensures r.Some? ==> (r.value == 1.0 <==> g.value == 1.0)
  {
    if g.None? then None else Some(1.0 - Abs(g.value - 1.0))
  }

  /** Parity misses of equal size in either direction are equally good. */
  lemma GoodnessSymmetric(g: real)
    ensures Goodness(Some(g)) == Goodness(Some(2.0 - g))
  {
    assert Abs(g - 1.0) == Abs((2.0 - g) - 1.0);
  }

  /** Goodness decreases with the distance from parity. */
  lemma GoodnessOrdersByDistance(g: real, h: real)
    requires Abs(g - 1.0) <= Abs(h - 1.0)
    ensures Goodness(Some(h)).value <= Goodness(Some(g)).value
  {
  }
}
