/** Sums, extremes and (weighted) means over sequences of reals: the
    reductions `min`, `max`, `mean` and `np.average` the index builder uses. */
module Stats {

  function Sum(xs: seq<real>): real
    decreases |xs|
  {
    if |xs| == 0 then 0.0 else xs[0] + Sum(xs[1..])
  }

  /** The smallest element. */
  function Min(xs: seq<real>): (m: real)
    requires |xs| > 0
    ensures m in xs
    ensures forall x :: x in xs ==> m <= x
    decreases |xs|
  {
    if |xs| == 1 then xs[0]
    else
      var rest := Min(xs[1..]);
      assert forall x :: x in xs ==> x == xs[0] || x in xs[1..];
      if xs[0] <= rest then xs[0] else rest
  }

  /** The largest element. */
  function Max(xs: seq<real>): (m: real)
    requires |xs| > 0
    ensures m in xs
    ensures forall x :: x in xs ==> x <= m
    decreases |xs|
  {
    if |xs| == 1 then xs[0]
    else
      var rest := Max(xs[1..]);
      assert forall x :: x in xs ==> x == xs[0] || x in xs[1..];
      if xs[0] >= rest then xs[0] else rest
  }

  /** A sum of `n` terms, each at least `lo`, is at least `n * lo`. */
  lemma {:induction false} SumLow(xs: seq<real>, lo: real)
    requires forall i :: 0 <= i < |xs| ==> lo <= xs[i]
    ensures lo * (|xs| as real) <= Sum(xs)
    decreases |xs|
  {
    if |xs| > 0 {
      SumLow(xs[1..], lo);
      assert lo * (|xs| as real) == lo + lo * (|xs[1..]| as real);
    }
  }

  /** A sum of `n` terms, each at most `hi`, is at most `n * hi`. */
  lemma {:induction false} SumHigh(xs: seq<real>, hi: real)
    requires forall i :: 0 <= i < |xs| ==> xs[i] <= hi
    ensures Sum(xs) <= hi * (|xs| as real)
    decreases |xs|
  {
    if |xs| > 0 {
      SumHigh(xs[1..], hi);
      assert hi * (|xs| as real) == hi + hi * (|xs[1..]| as real);
    }
  }

  /** A sum of positive terms is positive. */
  lemma {:induction false} SumPositive(xs: seq<real>)
    requires |xs| > 0
    requires forall i :: 0 <= i < |xs| ==> xs[i] > 0.0
    ensures Sum(xs) > 0.0
    decreases |xs|
  {
    if |xs| > 1 {
      SumPositive(xs[1..]);
    }
  }

  /** Dividing by a positive number keeps a lower bound. */
  lemma DivLow(a: real, b: real, lo: real)
    requires b > 0.0 && lo * b <= a
    ensures lo <= a / b
  {
    assert a / b * b == a;
  }

  /** Dividing by a positive number keeps an upper bound. */
  lemma DivHigh(a: real, b: real, hi: real)
    requires b > 0.0 && a <= hi * b
    ensures a / b <= hi
  {
    assert a / b * b == a;
  }

  /** The mean of values that are all at least `lo` is at least `lo`. */
  lemma MeanLow(xs: seq<real>, lo: real)
    requires |xs| > 0
    requires forall x :: x in xs ==> lo <= x
    ensures lo <= Sum(xs) / (|xs| as real)
  {
    assert forall i :: 0 <= i < |xs| ==> xs[i] in xs;
    SumLow(xs, lo);
    DivLow(Sum(xs), |xs| as real, lo);
  }

  /** The mean of values that are all at most `hi` is at most `hi`. */
  lemma MeanHigh(xs: seq<real>, hi: real)
    requires |xs| > 0
    requires forall x :: x in xs ==> x <= hi
    ensures Sum(xs) / (|xs| as real) <= hi
  {
    assert forall i :: 0 <= i < |xs| ==> xs[i] in xs;
    SumHigh(xs, hi);
    DivHigh(Sum(xs), |xs| as real, hi);
  }

  /** The arithmetic mean; it lies between the smallest and largest element. */
  function Mean(xs: seq<real>): (m: real)
    requires |xs| > 0
    ensures Min(xs) <= m <= Max(xs)
  {
    MeanLow(xs, Min(xs));
    MeanHigh(xs, Max(xs));
    Sum(xs) / (|xs| as real)
  }

  /** The weighted sum `Σ ws[i] * ss[i]`. */
  function Dot(ws: seq<real>, ss: seq<real>): real
    requires |ws| == |ss|
    decreases |ws|
  {
    if |ws| == 0 then 0.0 else ws[0] * ss[0] + Dot(ws[1..], ss[1..])
  }

  /** One step of `DotLow`: adding a weighted term keeps the lower bound. */
  lemma StepLow(w: real, s: real, restW: real, restD: real, lo: real)
    requires w >= 0.0 && lo <= s
    requires lo * restW <= restD
    ensures lo * (w + restW) <= w * s + restD
  {
    assert w * s - w * lo == w * (s - lo);
    assert lo * (w + restW) == w * lo + lo * restW;
  }

  /** One step of `DotHigh`: adding a weighted term keeps the upper bound. */
  lemma StepHigh(w: real, s: real, restW: real, restD: real, hi: real)
    requires w >= 0.0 && s <= hi
    requires restD <= hi * restW
    ensures w * s + restD <= hi * (w + restW)
  {
    assert w * hi - w * s == w * (hi - s);
    assert hi * (w + restW) == w * hi + hi * restW;
  }

  /** With non-negative weights, a weighted sum of terms of at least `lo`
      is at least `lo` times the total weight. */
  lemma {:induction false} DotLow(ws: seq<real>, ss: seq<real>, lo: real)
    requires |ws| == |ss|
    requires forall i :: 0 <= i < |ws| ==> ws[i] >= 0.0 && lo <= ss[i]
    ensures lo * Sum(ws) <= Dot(ws, ss)
    decreases |ws|
  {
    if |ws| > 0 {
      DotLow(ws[1..], ss[1..], lo);
      StepLow(ws[0], ss[0], Sum(ws[1..]), Dot(ws[1..], ss[1..]), lo);
    }
  }

  /** With non-negative weights, a weighted sum of terms of at most `hi`
      is at most `hi` times the total weight. */
  lemma {:induction false} DotHigh(ws: seq<real>, ss: seq<real>, hi: real)
    requires |ws| == |ss|
    requires forall i :: 0 <= i < |ws| ==> ws[i] >= 0.0 && ss[i] <= hi
    ensures Dot(ws, ss) <= hi * Sum(ws)
    decreases |ws|
  {
    if |ws| > 0 {
      DotHigh(ws[1..], ss[1..], hi);
      StepHigh(ws[0], ss[0], Sum(ws[1..]), Dot(ws[1..], ss[1..]), hi);
    }
  }

  /** With positive weights, a weighted mean of values that are all at
      least `lo` is at least `lo`. */
  lemma WeightedLow(ws: seq<real>, ss: seq<real>, lo: real)
    requires |ws| == |ss| > 0
    requires forall i :: 0 <= i < |ws| ==> ws[i] > 0.0
    requires forall x :: x in ss ==> lo <= x
    ensures Sum(ws) > 0.0 && lo <= Dot(ws, ss) / Sum(ws)
  {
    assert Sum(ws) > 0.0 && lo <= Dot(ws, ss) / Sum(ws) by {
      WeightedSumLow(ws, ss, lo);
      DivLow(Dot(ws, ss), Sum(ws), lo);
    }
  }

  lemma WeightedSumLow(ws: seq<real>, ss: seq<real>, lo: real)
    requires |ws| == |ss| > 0
    requires forall i :: 0 <= i < |ws| ==> ws[i] > 0.0
    requires forall x :: x in ss ==> lo <= x
    ensures Sum(ws) > 0.0 && lo * Sum(ws) <= Dot(ws, ss)
  {
    assert forall i :: 0 <= i < |ss| ==> ss[i] in ss;
    SumPositive(ws);
    DotLow(ws, ss, lo);
  }

  /** With positive weights, a weighted mean of values that are all at
      most `hi` is at most `hi`. */
  lemma WeightedHigh(ws: seq<real>, ss: seq<real>, hi: real)
    requires |ws| == |ss| > 0
    requires forall i :: 0 <= i < |ws| ==> ws[i] > 0.0
    requires forall x :: x in ss ==> x <= hi
    ensures Sum(ws) > 0.0 && Dot(ws, ss) / Sum(ws) <= hi
  {
    assert Sum(ws) > 0.0 && Dot(ws, ss) / Sum(ws) <= hi by {
      WeightedSumHigh(ws, ss, hi);
      DivHigh(Dot(ws, ss), Sum(ws), hi);
    }
  }

  lemma WeightedSumHigh(ws: seq<real>, ss: seq<real>, hi: real)
    requires |ws| == |ss| > 0
    requires forall i :: 0 <= i < |ws| ==> ws[i] > 0.0
    requires forall x :: x in ss ==> x <= hi
    ensures Sum(ws) > 0.0 && Dot(ws, ss) <= hi * Sum(ws)
  {
    assert forall i :: 0 <= i < |ss| ==> ss[i] in ss;
    SumPositive(ws);
    DotHigh(ws, ss, hi);
  }

  /** `np.average(scores, weights=ws)`: `Σ w·s / Σ w`. With positive
      weights it lies between the smallest and the largest score. */
  function WeightedMean(ws: seq<real>, ss: seq<real>): (m: real)
    requires |ws| == |ss| > 0
    requires forall i :: 0 <= i < |ws| ==> ws[i] > 0.0
    ensures Min(ss) <= m <= Max(ss)
  {
    WeightedLow(ws, ss, Min(ss));
    WeightedHigh(ws, ss, Max(ss));
    Dot(ws, ss) / Sum(ws)
  }

  lemma {:induction false} DotOfConstant(ws: seq<real>, ss: seq<real>, c: real)
    requires |ws| == |ss|
    requires forall i :: 0 <= i < |ws| ==> ws[i] == c
    ensures Dot(ws, ss) == c * Sum(ss)
    ensures Sum(ws) == c * (|ws| as real)
    decreases |ws|
  {
    if |ws| > 0 {
      DotOfConstant(ws[1..], ss[1..], c);
      assert c * (|ws| as real) == c + c * (|ws[1..]| as real);
    }
  }

  /** With equal weights the weighted mean is the plain mean, whatever the
      common weight is. */
  lemma EqualWeightsGiveMean(ws: seq<real>, ss: seq<real>, c: real)
    requires |ws| == |ss| > 0
    requires c > 0.0
    requires forall i :: 0 <= i < |ws| ==> ws[i] == c
    ensures WeightedMean(ws, ss) == Mean(ss)
  {
    DotOfConstant(ws, ss, c);
    Cancel(Dot(ws, ss), Sum(ws), c, Sum(ss), |ss| as real);
  }

  /** A common positive factor cancels from a quotient. */
  lemma Cancel(a: real, b: real, c: real, s: real, n: real)
    requires c > 0.0 && n > 0.0
    requires a == c * s && b == c * n
    ensures a / b == s / n
  {
    var q := s / n;
    assert q * n == s;
    assert c * s == q * (c * n);
  }
}
