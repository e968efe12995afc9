/** The bookkeeping both scripts do around their thread pools: every submitted
    item is classified as passed or failed and appended to exactly one of two
    lists (`downloaded_images` / `failed_images` in the downloader,
    `imported_images` / `failed_imports` in the importer).

    The pool finishes its items in an order nobody controls, so the lists are
    modelled as a fold over the items in COMPLETION order, and the lemmas below
    show that what they hold, counted with multiplicity, does not depend on that
    order. */
module Accounting {

  /** What one worker reports: a value for the success list or for the failure list. */
  datatype Verdict<+S, +F> = Passed(passed: S) | Failed(failed: F)

  /** The two result lists. */
  datatype Tally<S, F> = Tally(passed: seq<S>, failed: seq<F>)

  /** Appends one verdict to exactly one list and leaves the other as it was. */
  function Record<S, F>(t: Tally<S, F>, v: Verdict<S, F>): (r: Tally<S, F>)
    ensures |r.passed| + |r.failed| == |t.passed| + |t.failed| + 1
    ensures v.Passed? ==> r.passed == t.passed + [v.passed] && r.failed == t.failed
    ensures v.Failed? ==> r.failed == t.failed + [v.failed] && r.passed == t.passed
  {
    match v
    case Passed(s) => Tally(t.passed + [s], t.failed)
    case Failed(f) => Tally(t.passed, t.failed + [f])
  }

  /** The lists after the items of `done` have completed, in that order,
      starting from two empty lists. */
  function Fold<T, S, F>(done: seq<T>, classify: T -> Verdict<S, F>): (t: Tally<S, F>)
    ensures |t.passed| + |t.failed| == |done|
  {
    if done == [] then Tally([], [])
    else Record(Fold(done[..|done| - 1], classify), classify(done[|done| - 1]))
  }

  /** Completing `a` and then `b` concatenates the lists of each half. */
  lemma {:induction false} FoldAppend<T, S, F>(a: seq<T>, b: seq<T>, classify: T -> Verdict<S, F>)
    ensures Fold(a + b, classify).passed == Fold(a, classify).passed + Fold(b, classify).passed
    ensures Fold(a + b, classify).failed == Fold(a, classify).failed + Fold(b, classify).failed
    decreases |b|
  {
    if b == [] {
      assert a + b == a;
    } else {
      var b' := b[..|b| - 1];
      assert (a + b)[..|a + b| - 1] == a + b';
      assert (a + b)[|a + b| - 1] == b[|b| - 1];
      FoldAppend(a, b', classify);
    }
  }

  /** An item has a value in the success list exactly when some completed item
      was classified as passing with that value, and likewise for failures. */
  lemma {:induction false} FoldMembers<T, S, F>(done: seq<T>, classify: T -> Verdict<S, F>, s: S, f: F)
    ensures s in Fold(done, classify).passed <==> exists i :: 0 <= i < |done| && classify(done[i]) == Passed(s)
    ensures f in Fold(done, classify).failed <==> exists i :: 0 <= i < |done| && classify(done[i]) == Failed(f)
  {
    if done != [] {
      var init := done[..|done| - 1];
      FoldMembers(init, classify, s, f);
      assert forall i :: 0 <= i < |init| ==> init[i] == done[i];
    }
  }

  /** The positions of `done` whose item `classify` gives the verdict `v`. */
  ghost function Positions<T, S, F>(done: seq<T>, classify: T -> Verdict<S, F>, v: Verdict<S, F>): (p: set<int>)
    ensures forall i :: i in p <==> 0 <= i < |done| && classify(done[i]) == v
  {
    set i | 0 <= i < |done| && classify(done[i]) == v
  }

  /** Each value occurs in a list as many times as there are completed items
      classified into that list with that value. */
  lemma {:induction false} FoldCounts<T, S, F>(done: seq<T>, classify: T -> Verdict<S, F>, s: S, f: F)
    ensures multiset(Fold(done, classify).passed)[s] == |Positions(done, classify, Passed(s))|
    ensures multiset(Fold(done, classify).failed)[f] == |Positions(done, classify, Failed(f))|
  {
    if done == [] {
      assert Positions(done, classify, Passed(s)) == {};
      assert Positions(done, classify, Failed(f)) == {};
    } else {
      var init := done[..|done| - 1];
      FoldCounts(init, classify, s, f);
      PositionsStep(done, init, classify, Passed(s));
      PositionsStep(done, init, classify, Failed(f));
    }
  }

  /** The positions of `done` with verdict `v` are those of all but the last
      item, plus the last position when its verdict is `v`. */
  lemma PositionsStep<T, S, F>(done: seq<T>, init: seq<T>, classify: T -> Verdict<S, F>, v: Verdict<S, F>)
    requires done != [] && init == done[..|done| - 1]
    ensures |Positions(done, classify, v)|
            == |Positions(init, classify, v)| + (if classify(done[|done| - 1]) == v then 1 else 0)
  {
    var n := |init|;
    var a, b := Positions(init, classify, v), Positions(done, classify, v);
    forall i
      ensures i in b <==> i in a || (i == n && classify(done[n]) == v)
    {
      if 0 <= i < n {
        assert init[i] == done[i];
      }
    }
    assert n !in a;
    if classify(done[n]) == v {
      assert b == a + {n};
    } else {
      assert b == a;
    }
  }

  /** No failures were recorded exactly when every completed item passed. */
  lemma {:induction false} FoldNoFailures<T, S, F>(done: seq<T>, classify: T -> Verdict<S, F>)
    ensures Fold(done, classify).failed == [] <==> forall i :: 0 <= i < |done| ==> classify(done[i]).Passed?
  {
    if done != [] {
      var init := done[..|done| - 1];
      FoldNoFailures(init, classify);
      assert forall i :: 0 <= i < |init| ==> init[i] == done[i];
    }
  }

  /** Completing three runs one after the other concatenates their lists. */
  lemma FoldThree<T, S, F>(u: seq<T>, x: seq<T>, v: seq<T>, classify: T -> Verdict<S, F>)
    ensures Fold(u + x + v, classify).passed == Fold(u, classify).passed + Fold(x, classify).passed + Fold(v, classify).passed
    ensures Fold(u + x + v, classify).failed == Fold(u, classify).failed + Fold(x, classify).failed + Fold(v, classify).failed
  {
    FoldAppend(u + x, v, classify);
    FoldAppend(u, x, classify);
  }

  /** Taking the middle part out of a list takes exactly its elements out of
      the multiset. */
  lemma MultisetMiddle<S>(p: seq<S>, q: seq<S>, r: seq<S>)
    ensures multiset(p + q + r) == multiset(p + r) + multiset(q)
  {
  }

  /** Putting the same run `q` back into two permutations of each other keeps
      them permutations of each other, wherever it goes. */
  lemma MultisetPutBack<S>(p: seq<S>, q: seq<S>, u: seq<S>, v: seq<S>)
    requires multiset(p) == multiset(u + v)
    ensures multiset(p + q) == multiset(u + q + v)
  {
    MultisetMiddle(u, q, v);
  }

  /** Removing the last item of `a` and the same item at position `j` of `b`
      keeps two permutations of each other permutations. */
  lemma MultisetWithout<T>(a: seq<T>, b: seq<T>, j: nat)
    requires multiset(a) == multiset(b)
    requires a != [] && j < |b| && b[j] == a[|a| - 1]
    ensures multiset(a[..|a| - 1]) == multiset(b[..j] + b[j + 1..])
  {
    var x, a', u, v := a[|a| - 1], a[..|a| - 1], b[..j], b[j + 1..];
    SplitAround(a, |a| - 1);
    SplitAround(b, j);
    MultisetMiddle(u, [x], v);
    var ma, mb := multiset(a'), multiset(u + v);
    assert ma + multiset([x]) == mb + multiset([x]);
    forall e
      ensures ma[e] == mb[e]
    {
      assert (ma + multiset([x]))[e] == (mb + multiset([x]))[e];
    }
  }

  /** A list is its part before position `j`, the item there, and its part after. */
  lemma SplitAround<T>(b: seq<T>, j: nat)
    requires j < |b|
    ensures b == b[..j] + [b[j]] + b[j + 1..]
  {
  }

  /** Some position of `b` holds `x` when `x` occurs in it. */
  lemma PositionOf<T>(b: seq<T>, x: T) returns (j: nat)
    requires x in multiset(b)
    ensures j < |b| && b[j] == x
  {
    assert x in b;
    j :| 0 <= j < |b| && b[j] == x;
  }

  /** One inductive step of the order argument: adding the same item at the end
      of one order and in the middle of the other keeps their lists equal up to
      order. */
  lemma FoldPutBack<T, S, F>(a: seq<T>, x: T, u: seq<T>, v: seq<T>, classify: T -> Verdict<S, F>)
    requires multiset(Fold(a, classify).passed) == multiset(Fold(u + v, classify).passed)
    requires multiset(Fold(a, classify).failed) == multiset(Fold(u + v, classify).failed)
    ensures multiset(Fold(a + [x], classify).passed) == multiset(Fold(u + [x] + v, classify).passed)
    ensures multiset(Fold(a + [x], classify).failed) == multiset(Fold(u + [x] + v, classify).failed)
  {
    FoldAppend(a, [x], classify);
    FoldThree(u, [x], v, classify);
    FoldAppend(u, v, classify);
    var fa, fu, fx, fv := Fold(a, classify), Fold(u, classify), Fold([x], classify), Fold(v, classify);
    MultisetPutBack(fa.passed, fx.passed, fu.passed, fv.passed);
    MultisetPutBack(fa.failed, fx.failed, fu.failed, fv.failed);
  }

  /** The thread pool's completion order does not matter: two completion orders
      of the same items yield the same two lists up to order. */
  lemma {:induction false} FoldOrderIrrelevant<T, S, F>(a: seq<T>, b: seq<T>, classify: T -> Verdict<S, F>)
    requires multiset(a) == multiset(b)
    ensures multiset(Fold(a, classify).passed) == multiset(Fold(b, classify).passed)
    ensures multiset(Fold(a, classify).failed) == multiset(Fold(b, classify).failed)
    decreases |a|
  {
    if a == [] {
      assert b == [] by {
        assert |multiset(b)| == 0;
      }
    } else {
      var x := a[|a| - 1];
      var j := PositionOf(b, x);
      var a', u, v := a[..|a| - 1], b[..j], b[j + 1..];
      MultisetWithout(a, b, j);
      FoldOrderIrrelevant(a', u + v, classify);
      FoldPutBack(a', x, u, v, classify);
      SplitAround(a, |a| - 1);
      SplitAround(b, j);
    }
  }
}
