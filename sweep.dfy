/**
 * A component's pass over the files of one scan: a step applied to the
 * state (the filesystem, with any counters the component keeps) for each
 * element in turn. The lemmas say what a whole pass does to one file, given
 * what each single step does.
 */
module Sweep {
  import opened Fs

  /** The filesystem after applying step to each element of xs, first to last. */
  ghost function Run<S, T>(d: S, xs: seq<T>, step: (S, T) -> S): S
    decreases |xs|
  {
    if xs == [] then d else Run(step(d, xs[0]), xs[1..], step)
  }

  /** A pass over xs followed by ys is the pass over xs + ys. */
  lemma {:induction false} RunAppend<S, T>(d: S, xs: seq<T>, ys: seq<T>, step: (S, T) -> S)
    ensures Run(Run(d, xs, step), ys, step) == Run(d, xs + ys, step)
    decreases |xs|
  {
    if xs != [] {
      assert (xs + ys)[0] == xs[0] && (xs + ys)[1..] == xs[1..] + ys;
      RunAppend(step(d, xs[0]), xs[1..], ys, step);
    } else {
      assert xs + ys == ys;
    }
  }

  /** A pass is the prefix before position k, then the step of the k-th element, then the rest. */
  lemma Splits<S, T>(d: S, xs: seq<T>, step: (S, T) -> S, k: nat)
    requires k < |xs|
    ensures Run(d, xs, step) == Run(step(Run(d, xs[..k], step), xs[k]), xs[k + 1..], step)
  {
    RunAppend(d, xs[..k], xs[k..], step);
    assert xs[..k] + xs[k..] == xs;
    assert xs[k..][1..] == xs[k + 1..];
  }

  /** A property that every step of the pass keeps holds at its end. */
  lemma {:induction false} Keeps<S, T>(d: S, xs: seq<T>, step: (S, T) -> S, inv: S -> bool)
    requires inv(d)
    requires forall e: S, y: T :: y in xs && inv(e) ==> inv(step(e, y))
    ensures inv(Run(d, xs, step))
    decreases |xs|
  {
    if xs != [] {
      assert xs[0] in xs;
      Keeps(step(d, xs[0]), xs[1..], step, inv);
    }
  }

  /**
   * One element's outcome survives the pass: the other steps keep what the
   * element's step needs (pre) and what it achieves (post).
   */
  lemma {:induction false} Reaches<S, T>(d: S, xs: seq<T>, step: (S, T) -> S, x: T,
                                             pre: S -> bool, post: S -> bool)
    requires x in xs && Distinct(xs)
    requires pre(d)
    requires forall e: S, y: T :: y in xs && y != x && pre(e) ==> pre(step(e, y))
    requires forall e: S :: pre(e) ==> post(step(e, x))
    requires forall e: S, y: T :: y in xs && y != x && post(e) ==> post(step(e, y))
    ensures post(Run(d, xs, step))
    decreases |xs|
  {
    if xs[0] == x {
      assert x !in xs[1..] by {
        forall k | 0 <= k < |xs[1..]| ensures xs[1..][k] != x {
          assert xs[1..][k] == xs[k + 1];
        }
      }
      Keeps(step(d, x), xs[1..], step, post);
    } else {
      assert xs[0] in xs;
      assert x in xs[1..] by {
        var k :| 0 <= k < |xs| && xs[k] == x;
        assert xs[1..][k - 1] == x;
      }
      Reaches(step(d, xs[0]), xs[1..], step, x, pre, post);
    }
  }

  /** The number of elements of xs that satisfy p. */
  ghost function CountWhere<T>(xs: seq<T>, p: T -> bool): nat
    decreases |xs|
  {
    if xs == [] then 0 else (if p(xs[0]) then 1 else 0) + CountWhere(xs[1..], p)
  }

  /** The elements of xs that satisfy p. */
  ghost function Where<T>(xs: seq<T>, p: T -> bool): set<T>
  {
    set x | x in xs && p(x)
  }

  /** Over a list without repetitions, the count is the size of the set of elements satisfying p. */
  lemma {:induction false} CountIsCardinality<T>(xs: seq<T>, p: T -> bool)
    requires Distinct(xs)
    ensures CountWhere(xs, p) == |Where(xs, p)|
    decreases |xs|
  {
    if xs != [] {
      var rest := Where(xs[1..], p);
      assert Distinct(xs[1..]) by {
        forall i, j | 0 <= i < j < |xs[1..]| ensures xs[1..][i] != xs[1..][j] {
          assert xs[1..][i] == xs[i + 1] && xs[1..][j] == xs[j + 1];
        }
      }
      CountIsCardinality(xs[1..], p);
      assert xs[0] !in rest by {
        forall k | 0 <= k < |xs[1..]| ensures xs[1..][k] != xs[0] {
          assert xs[1..][k] == xs[k + 1];
        }
      }
      if p(xs[0]) {
        assert Where(xs, p) == {xs[0]} + rest;
      } else {
        assert Where(xs, p) == rest;
      }
    }
  }

  /** A counter that each step raises by one exactly for the elements satisfying p ends raised by their number. */
  lemma {:induction false} Counts<S, T>(d: S, xs: seq<T>, step: (S, T) -> S, count: S -> int, p: T -> bool)
    requires forall e: S, y: T :: y in xs ==> count(step(e, y)) == count(e) + (if p(y) then 1 else 0)
    ensures count(Run(d, xs, step)) == count(d) + CountWhere(xs, p)
    decreases |xs|
  {
    if xs != [] {
      assert xs[0] in xs;
      Counts(step(d, xs[0]), xs[1..], step, count, p);
    }
  }
}
