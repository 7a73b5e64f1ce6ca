/** Sequence helpers: boolean-mask selection, concatenation, counting and
    de-duplication, with the facts the pipeline's contracts rely on. */
module Seqs {
  import opened Wrappers

  /** The elements of `xs` that satisfy `p`, in their original order: the
      boolean-mask selection `df[mask]` used throughout the pipeline. */
  function Filter<T(!new)>(xs: seq<T>, p: T -> bool): (r: seq<T>)
    ensures |r| <= |xs|
    ensures forall i :: 0 <= i < |r| ==> p(r[i])
    ensures forall x :: x in r <==> x in xs && p(x)
    decreases |xs|
  {
    if |xs| == 0 then []
    else if p(xs[0]) then [xs[0]] + Filter(xs[1..], p)
    else Filter(xs[1..], p)
  }

  /** The positions of the elements of `xs` that satisfy `p`, ascending. */
  function KeptPositions<T>(xs: seq<T>, p: T -> bool): (ix: seq<nat>)
    ensures forall k :: 0 <= k < |ix| ==> ix[k] < |xs| && p(xs[ix[k]])
    ensures forall k, l :: 0 <= k < l < |ix| ==> ix[k] < ix[l]
    decreases |xs|
  {
    if |xs| == 0 then []
    else
      var rest := KeptPositions(xs[1..], p);
      var shifted := seq(|rest|, k requires 0 <= k < |rest| => rest[k] + 1);
      if p(xs[0]) then [0] + shifted else shifted
  }

  /** Every position whose element satisfies `p` is kept. */
  lemma {:induction false} KeptPositionsComplete<T>(xs: seq<T>, p: T -> bool, i: nat)
    requires i < |xs| && p(xs[i])
    ensures i in KeptPositions(xs, p)
    decreases |xs|
  {
    var rest := KeptPositions(xs[1..], p);
    var shifted := seq(|rest|, k requires 0 <= k < |rest| => rest[k] + 1);
    if i > 0 {
      KeptPositionsComplete(xs[1..], p, i - 1);
      var k :| 0 <= k < |rest| && rest[k] == i - 1;
      assert shifted[k] == i;
      if p(xs[0]) {
        assert KeptPositions(xs, p)[k + 1] == i;
      } else {
        assert KeptPositions(xs, p)[k] == i;
      }
    }
  }

  /** `Filter` keeps exactly the elements at `KeptPositions`, in that order:
      nothing is reordered, duplicated or invented. */
  lemma {:induction false} FilterKeepsOrder<T(!new)>(xs: seq<T>, p: T -> bool)
    ensures |Filter(xs, p)| == |KeptPositions(xs, p)|
    ensures forall k :: 0 <= k < |Filter(xs, p)| ==>
              Filter(xs, p)[k] == xs[KeptPositions(xs, p)[k]]
    decreases |xs|
  {
    if |xs| > 0 {
      FilterKeepsOrder(xs[1..], p);
      var rest := KeptPositions(xs[1..], p);
      var tail := Filter(xs[1..], p);
      var f := Filter(xs, p);
      var ix := KeptPositions(xs, p);
      var d := if p(xs[0]) then 1 else 0;
      assert |f| == |tail| + d && |ix| == |rest| + d;
      forall k | 0 <= k < |f|
        ensures f[k] == xs[ix[k]]
      {
        if k >= d {
          assert f[k] == tail[k - d];
          assert ix[k] == rest[k - d] + 1;
          assert tail[k - d] == xs[1..][rest[k - d]];
        }
      }
    }
  }

  /** Selection distributes over concatenation. */
  lemma {:induction false} FilterAppend<T(!new)>(xs: seq<T>, ys: seq<T>, p: T -> bool)
    ensures Filter(xs + ys, p) == Filter(xs, p) + Filter(ys, p)
    decreases |xs|
  {
    if |xs| == 0 {
      assert xs + ys == ys;
    } else {
      assert (xs + ys)[1..] == xs[1..] + ys;
      FilterAppend(xs[1..], ys, p);
    }
  }

  /** Selecting with a mask that holds everywhere keeps the sequence. */
  lemma {:induction false} FilterAll<T(!new)>(xs: seq<T>, p: T -> bool)
    requires forall x :: x in xs ==> p(x)
    ensures Filter(xs, p) == xs
    decreases |xs|
  {
    if |xs| > 0 {
      assert forall x :: x in xs[1..] ==> x in xs;
      FilterAll(xs[1..], p);
    }
  }

  /** Selecting twice with the same mask is selecting once. */
  lemma FilterIdempotent<T(!new)>(xs: seq<T>, p: T -> bool)
    ensures Filter(Filter(xs, p), p) == Filter(xs, p)
  {
    FilterAll(Filter(xs, p), p);
  }

  /** The first element that `Filter` keeps is the first element of `xs`
      satisfying `p`. */
  lemma {:induction false} FilterHead<T(!new)>(xs: seq<T>, p: T -> bool)
    requires |Filter(xs, p)| > 0
    ensures exists pos :: 0 <= pos < |xs| && xs[pos] == Filter(xs, p)[0]
              && forall k :: 0 <= k < pos ==> !p(xs[k])
    decreases |xs|
  {
    if !p(xs[0]) {
      FilterHead(xs[1..], p);
      var pos :| 0 <= pos < |xs[1..]| && xs[1..][pos] == Filter(xs[1..], p)[0]
                 && forall k :: 0 <= k < pos ==> !p(xs[1..][k]);
      assert xs[pos + 1] == Filter(xs, p)[0];
      assert forall k :: 0 <= k < pos + 1 ==> !p(xs[k]) by {
        forall k | 0 <= k < pos + 1
          ensures !p(xs[k])
        {
          if k > 0 {
            assert xs[k] == xs[1..][k - 1];
          }
        }
      }
    } else {
      assert xs[0] == Filter(xs, p)[0];
    }
  }

  /** The concatenation of a sequence of sequences (`pd.concat`). */
  function Flatten<T(!new)>(xss: seq<seq<T>>): (r: seq<T>)
    ensures forall x :: x in r <==> exists i :: 0 <= i < |xss| && x in xss[i]
    decreases |xss|
  {
    if |xss| == 0 then []
    else
      var rest := Flatten(xss[1..]);
      assert forall x :: x in rest <==> exists i :: 1 <= i < |xss| && x in xss[i] by {
        forall x
          ensures x in rest <==> exists i :: 1 <= i < |xss| && x in xss[i]
        {
          if x in rest {
            var i :| 0 <= i < |xss[1..]| && x in xss[1..][i];
            assert x in xss[i + 1];
          }
          if exists i :: 1 <= i < |xss| && x in xss[i] {
            var i :| 1 <= i < |xss| && x in xss[i];
            assert x in xss[1..][i - 1];
          }
        }
      }
      xss[0] + rest
  }

  /** Flattening one-element lists lists their elements in order. */
  lemma {:induction false} FlattenSingletons<T(!new)>(xss: seq<seq<T>>)
    requires forall i :: 0 <= i < |xss| ==> |xss[i]| == 1
    ensures |Flatten(xss)| == |xss|
    ensures forall i :: 0 <= i < |xss| ==> Flatten(xss)[i] == xss[i][0]
    decreases |xss|
  {
    if |xss| > 0 {
      FlattenSingletons(xss[1..]);
      assert Flatten(xss) == xss[0] + Flatten(xss[1..]);
    }
  }

  /** No element occurs twice. */
  predicate Distinct<T(==)>(xs: seq<T>) {
    forall i, j :: 0 <= i < j < |xs| ==> xs[i] != xs[j]
  }

  /** The elements of `xs` in order of first occurrence, each once. */
  function Dedup<T(==,!new)>(xs: seq<T>): (r: seq<T>)
    ensures Distinct(r)
    ensures forall x :: x in r <==> x in xs
    decreases |xs|
  {
    if |xs| == 0 then []
    else
      var d := Dedup(xs[..|xs| - 1]);
      assert forall x :: x in xs <==> x in xs[..|xs| - 1] || x == xs[|xs| - 1] by {
        assert xs == xs[..|xs| - 1] + [xs[|xs| - 1]];
      }
      if xs[|xs| - 1] in d then d else d + [xs[|xs| - 1]]
  }

  /** Filtering a duplicate-free sequence leaves it duplicate-free. */
  lemma {:induction false} FilterDistinct<T(!new)>(xs: seq<T>, p: T -> bool)
    requires Distinct(xs)
    ensures Distinct(Filter(xs, p))
    decreases |xs|
  {
    if |xs| > 0 {
      assert Distinct(xs[1..]);
      FilterDistinct(xs[1..], p);
      var rest := Filter(xs[1..], p);
      if p(xs[0]) {
        assert xs[0] !in xs[1..];
        assert xs[0] !in rest;
        assert forall j :: 0 < j < |[xs[0]] + rest| ==> ([xs[0]] + rest)[j] == rest[j - 1];
      }
    }
  }

  /** In a duplicate-free sequence every element occurs at most once. */
  lemma {:induction false} DistinctMultiplicity<T>(xs: seq<T>, x: T)
    requires Distinct(xs)
    ensures multiset(xs)[x] <= 1
    decreases |xs|
  {
    if |xs| > 0 {
      assert xs == [xs[0]] + xs[1..];
      assert Distinct(xs[1..]);
      DistinctMultiplicity(xs[1..], x);
      if x == xs[0] {
        assert x !in xs[1..];
      }
    }
  }

  /** A rearrangement of a duplicate-free sequence is duplicate-free. */
  lemma DistinctPermutation<T>(xs: seq<T>, ys: seq<T>)
    requires Distinct(xs) && multiset(ys) == multiset(xs)
    ensures Distinct(ys)
  {
    forall i, j | 0 <= i < j < |ys|
      ensures ys[i] != ys[j]
    {
      DistinctMultiplicity(xs, ys[j]);
      assert ys == ys[..j] + ys[j..];
      assert ys[i] == ys[..j][i];
      assert ys[j] == ys[j..][0];
      assert multiset(ys) == multiset(ys[..j]) + multiset(ys[j..]);
    }
  }

  /** A duplicate-free sequence has as many distinct elements as positions. */
  lemma {:induction false} DistinctCardinality<T>(xs: seq<T>)
    requires Distinct(xs)
    ensures |set x | x in xs| == |xs|
    decreases |xs|
  {
    if |xs| > 0 {
      var init := xs[..|xs| - 1];
      var last := xs[|xs| - 1];
      assert Distinct(init);
      DistinctCardinality(init);
      assert (set x | x in xs) == (set x | x in init) + {last} by {
        assert xs == init + [last];
      }
    }
  }

  /** The number of occurrences of `x` in `xs`. */
  function Occurrences<T(==)>(xs: seq<T>, x: T): (n: nat)
    ensures n <= |xs|
    ensures n > 0 <==> x in xs
    decreases |xs|
  {
    if |xs| == 0 then 0
    else Occurrences(xs[..|xs| - 1], x) + (if xs[|xs| - 1] == x then 1 else 0)
  }

  /** Counting distributes over concatenation. */
  lemma {:induction false} OccurrencesAppend<T>(xs: seq<T>, ys: seq<T>, x: T)
    ensures Occurrences(xs + ys, x) == Occurrences(xs, x) + Occurrences(ys, x)
    decreases |ys|
  {
    if |ys| == 0 {
      assert xs + ys == xs;
    } else {
      assert (xs + ys)[..|xs + ys| - 1] == xs + ys[..|ys| - 1];
      OccurrencesAppend(xs, ys[..|ys| - 1], x);
    }
  }

  /** The occurrences of `x` in a flattened sequence of sequences, counted
      from part `i` on, are the sum of its occurrences in each part. */
  function OccurrencesFrom<T(==)>(xss: seq<seq<T>>, x: T, i: nat): nat
    requires i <= |xss|
    decreases |xss| - i
  {
    if i == |xss| then 0 else Occurrences(xss[i], x) + OccurrencesFrom(xss, x, i + 1)
  }

  lemma {:induction false} OccurrencesFlatten<T(!new)>(xss: seq<seq<T>>, x: T, i: nat)
    requires i <= |xss|
    ensures Occurrences(Flatten(xss[i..]), x) == OccurrencesFrom(xss, x, i)
    decreases |xss| - i
  {
    if i < |xss| {
      assert xss[i..][1..] == xss[i + 1..];
      assert Flatten(xss[i..]) == xss[i] + Flatten(xss[i + 1..]);
      OccurrencesAppend(xss[i], Flatten(xss[i + 1..]), x);
      OccurrencesFlatten(xss, x, i + 1);
    }
  }

  /** The present values of a sequence of options, in order (`dropna`). */
  function Somes<T(!new)>(xs: seq<Option<T>>): (r: seq<T>)
    ensures |r| <= |xs|
    ensures forall x :: x in r <==> Some(x) in xs
    decreases |xs|
  {
    if |xs| == 0 then []
    else
      var rest := Somes(xs[1..]);
      assert forall o :: o in xs <==> o == xs[0] || o in xs[1..];
      if xs[0].Some? then [xs[0].value] + rest else rest
  }

  /** The results of `f` on the elements of `xs` where it gives one, in
      order: a row-wise transform followed by dropping the rows it rejects. */
  function FilterMap<A(!new), B(!new)>(xs: seq<A>, f: A -> Option<B>): (r: seq<B>)
    ensures |r| <= |xs|
    ensures forall y :: y in r <==> exists x :: x in xs && f(x) == Some(y)
    decreases |xs|
  {
    if |xs| == 0 then []
    else
      var rest := FilterMap(xs[1..], f);
      assert forall x :: x in xs <==> x == xs[0] || x in xs[1..];
      match f(xs[0])
      case Some(y) => [y] + rest
      case None => rest
  }

  /** Counting `y` among the results of `f` is counting the elements that
      `f` maps to `y`. */
  lemma {:induction false} OccurrencesFilterMap<A(!new), B(!new)>(xs: seq<A>, f: A -> Option<B>, y: B, p: A -> bool)
    requires forall x :: p(x) <==> f(x) == Some(y)
    ensures Occurrences(FilterMap(xs, f), y) == |Filter(xs, p)|
    decreases |xs|
  {
    if |xs| > 0 {
      OccurrencesFilterMap(xs[1..], f, y, p);
      var rest := FilterMap(xs[1..], f);
      match f(xs[0])
      case Some(z) =>
        OccurrencesAppend([z], rest, y);
        assert Occurrences([z], y) == (if z == y then 1 else 0) by {
          assert [z][..0] == [];
        }
      case None =>
    }
  }

  /** Counting `x` among the present values is counting the `Some(x)`
      entries: `dropna` neither merges nor invents repeats. */
  lemma {:induction false} OccurrencesSomes<T(!new)>(xs: seq<Option<T>>, x: T)
    ensures Occurrences(Somes(xs), x) == Occurrences(xs, Some(x))
    decreases |xs|
  {
    if |xs| > 0 {
      OccurrencesSomes(xs[1..], x);
      assert xs == [xs[0]] + xs[1..];
      OccurrencesAppend([xs[0]], xs[1..], Some(x));
      assert [xs[0]][..0] == [];
      if xs[0].Some? {
        OccurrencesAppend([xs[0].value], Somes(xs[1..]), x);
        assert [xs[0].value][..0] == [];
      }
    }
  }

  /** The positions of `xs` that hold `x`. */
  function Positions<T(==)>(xs: seq<T>, x: T): set<int> {
    set i | 0 <= i < |xs| && xs[i] == x
  }

  /** The occurrences of `x` are the positions that hold it. */
  lemma {:induction false} OccurrencesArePositions<T>(xs: seq<T>, x: T)
    ensures Occurrences(xs, x) == |Positions(xs, x)|
    decreases |xs|
  {
    if |xs| > 0 {
      var init := xs[..|xs| - 1];
      OccurrencesArePositions(init, x);
      if xs[|xs| - 1] == x {
        assert Positions(xs, x) == Positions(init, x) + {|xs| - 1};
      } else {
        assert Positions(xs, x) == Positions(init, x);
      }
    }
  }

  /** Filtering twice is filtering once with both masks. */
  lemma {:induction false} FilterFilter<T(!new)>(xs: seq<T>, q: T -> bool, p: T -> bool, both: T -> bool)
    requires forall x :: both(x) <==> q(x) && p(x)
    ensures Filter(Filter(xs, q), p) == Filter(xs, both)
    decreases |xs|
  {
    if |xs| > 0 {
      FilterFilter(xs[1..], q, p, both);
      if q(xs[0]) {
        assert Filter(xs, q) == [xs[0]] + Filter(xs[1..], q);
        assert Filter(xs, q)[1..] == Filter(xs[1..], q);
      }
    }
  }
}
