/**
 The list idioms the scrapers share: a conditional comprehension, a loop that keeps only the
 results that are not None, a loop that appends an element only if it is not already present,
 and slicing with negative bounds. Each is defined from the right so that a loop over a prefix
 extends it by one step.
 */
module Seqs {
  import opened Wrappers

  /** `a` is `b` with some elements removed and the rest in their original order. */
  predicate IsSubsequence<T(==)>(a: seq<T>, b: seq<T>)
    decreases |b|
  {
    if a == [] then true
    else if b == [] then false
    else if a[|a| - 1] == b[|b| - 1] then IsSubsequence(a[..|a| - 1], b[..|b| - 1])
    else IsSubsequence(a, b[..|b| - 1])
  }

  /** Python's `[x for x in xs if p(x)]`. */
  function Filter<T(==)>(xs: seq<T>, p: T -> bool): (r: seq<T>)
    ensures |r| <= |xs|
  {
    if xs == [] then []
    else
      var last := xs[|xs| - 1];
      Filter(xs[..|xs| - 1], p) + if p(last) then [last] else []
  }

  /** What a filter keeps is in its input and satisfies the condition. */
  lemma {:induction false} FilterMembers<T>(xs: seq<T>, p: T -> bool)
    ensures forall x :: x in Filter(xs, p) ==> x in xs && p(x)
  {
    if xs != [] {
      FilterMembers(xs[..|xs| - 1], p);
    }
  }

  /**
   A filter keeps every copy of every element that satisfies the condition (duplicates are not
   collapsed) and no copy of any other.
   */
  lemma {:induction false} FilterCounts<T>(xs: seq<T>, p: T -> bool)
    ensures forall x :: x in xs ==> multiset(Filter(xs, p))[x] == if p(x) then multiset(xs)[x] else 0
  {
    if xs != [] {
      var init, last := xs[..|xs| - 1], xs[|xs| - 1];
      FilterCounts(init, p);
      FilterMembers(init, p);
      assert xs == init + [last];
      forall x | x in xs
        ensures multiset(Filter(xs, p))[x] == if p(x) then multiset(xs)[x] else 0
      {
        if x !in init {
          assert multiset(Filter(init, p))[x] == 0;
        }
      }
    }
  }

  /** A filter keeps the order of what it keeps. */
  lemma {:induction false} FilterIsSubsequence<T>(xs: seq<T>, p: T -> bool)
    ensures IsSubsequence(Filter(xs, p), xs)
  {
    if xs != [] {
      var init, last := xs[..|xs| - 1], xs[|xs| - 1];
      FilterIsSubsequence(init, p);
      var r := Filter(xs, p);
      assert xs[..|xs| - 1] == init;
      if p(last) {
        assert r[..|r| - 1] == Filter(init, p);
      } else if r != [] {
        FilterMembers(xs, p);
        assert r == Filter(init, p);
        assert r[|r| - 1] in r;
        assert r[|r| - 1] != last;
      }
    }
  }

  /** A filter whose condition holds everywhere returns its input unchanged. */
  lemma {:induction false} FilterAll<T>(xs: seq<T>, p: T -> bool)
    requires forall x :: x in xs ==> p(x)
    ensures Filter(xs, p) == xs
  {
    if xs != [] {
      FilterAll(xs[..|xs| - 1], p);
      assert xs == xs[..|xs| - 1] + [xs[|xs| - 1]];
    }
  }

  /** A filter whose condition fails everywhere returns nothing. */
  lemma {:induction false} FilterNone<T>(xs: seq<T>, p: T -> bool)
    requires forall x :: x in xs ==> !p(x)
    ensures Filter(xs, p) == []
  {
    if xs != [] {
      FilterNone(xs[..|xs| - 1], p);
    }
  }

  /** Two conditions that agree on the elements give the same filter. */
  lemma {:induction false} FilterCongruent<T>(xs: seq<T>, p: T -> bool, q: T -> bool)
    requires forall x :: x in xs ==> p(x) == q(x)
    ensures Filter(xs, p) == Filter(xs, q)
  {
    if xs != [] {
      FilterCongruent(xs[..|xs| - 1], p, q);
    }
  }

  /** Filtering distributes over concatenation. */
  lemma {:induction false} FilterAppend<T>(xs: seq<T>, ys: seq<T>, p: T -> bool)
    ensures Filter(xs + ys, p) == Filter(xs, p) + Filter(ys, p)
    decreases |ys|
  {
    if ys == [] {
      assert xs + ys == xs;
    } else {
      var init, last := ys[..|ys| - 1], ys[|ys| - 1];
      FilterAppend(xs, init, p);
      var zs := xs + ys;
      assert zs[|zs| - 1] == last;
      assert zs[..|zs| - 1] == xs + init;
      var tail := if p(last) then [last] else [];
      assert Filter(zs, p) == Filter(xs + init, p) + tail;
      assert Filter(ys, p) == Filter(init, p) + tail;
    }
  }

  /** The non-None results of `f` over `xs`, in order: a loop that appends only the results it gets. */
  function MapSome<A, B>(xs: seq<A>, f: A -> Option<B>): (r: seq<B>)
    ensures |r| <= |xs|
  {
    if xs == [] then []
    else
      var last := xs[|xs| - 1];
      MapSome(xs[..|xs| - 1], f) + match f(last) case Some(y) => [y] case None => []
  }

  /** One more step of the loop behind `MapSome`. */
  lemma MapSomeStep<A, B>(xs: seq<A>, i: nat, f: A -> Option<B>)
    requires i < |xs|
    ensures MapSome(xs[..i + 1], f) == MapSome(xs[..i], f) + match f(xs[i]) case Some(y) => [y] case None => []
  {
    assert xs[..i + 1][..i] == xs[..i];
  }

  /** Every result came from some input, and every input that gives a result contributes it. */
  lemma {:induction false} MapSomeMembers<A, B>(xs: seq<A>, f: A -> Option<B>)
    ensures forall y :: y in MapSome(xs, f) ==> exists k :: 0 <= k < |xs| && f(xs[k]) == Some(y)
    ensures forall k :: 0 <= k < |xs| && f(xs[k]).Some? ==> f(xs[k]).value in MapSome(xs, f)
  {
    if xs != [] {
      var init := xs[..|xs| - 1];
      MapSomeMembers(init, f);
      forall y | y in MapSome(xs, f)
        ensures exists k :: 0 <= k < |xs| && f(xs[k]) == Some(y)
      {
        if y in MapSome(init, f) {
          var k :| 0 <= k < |init| && f(init[k]) == Some(y);
          assert xs[k] == init[k];
        } else {
          assert f(xs[|xs| - 1]) == Some(y);
        }
      }
      forall k | 0 <= k < |xs| && f(xs[k]).Some?
        ensures f(xs[k]).value in MapSome(xs, f)
      {
        if k < |xs| - 1 {
          assert xs[k] == init[k];
        }
      }
    }
  }

  /** Keeping the results of a concatenation keeps them block by block, in order. */
  lemma {:induction false} MapSomeAppend<A, B>(xs: seq<A>, ys: seq<A>, f: A -> Option<B>)
    ensures MapSome(xs + ys, f) == MapSome(xs, f) + MapSome(ys, f)
    decreases |ys|
  {
    if ys == [] {
      assert xs + ys == xs;
    } else {
      var init := ys[..|ys| - 1];
      MapSomeAppend(xs, init, f);
      assert (xs + ys)[..|xs + ys| - 1] == xs + init;
    }
  }

  /**
   A loop that stops at the first error and otherwise appends the results it gets:
   `f(x)` either fails, gives nothing, or gives one element.
   */
  function Collect<A, B>(xs: seq<A>, f: A -> Result<Option<B>>): Result<seq<B>> {
    if xs == [] then Success([])
    else
      match Collect(xs[..|xs| - 1], f)
      case Failure(e) => Failure(e)
      case Success(prev) =>
        match f(xs[|xs| - 1])
        case Failure(e) => Failure(e)
        case Success(None) => Success(prev)
        case Success(Some(y)) => Success(prev + [y])
  }

  /** One more step of the loop behind `Collect`. */
  lemma CollectStep<A, B>(xs: seq<A>, i: nat, f: A -> Result<Option<B>>)
    requires i < |xs|
    ensures Collect(xs[..i + 1], f) ==
      match Collect(xs[..i], f)
      case Failure(e) => Failure(e)
      case Success(prev) =>
        match f(xs[i])
        case Failure(e) => Failure(e)
        case Success(None) => Success(prev)
        case Success(Some(y)) => Success(prev + [y])
  {
    assert xs[..i + 1][..i] == xs[..i];
  }

  /** Once a prefix fails, the whole loop fails with the same error. */
  lemma {:induction false} CollectKeepsFailure<A, B>(xs: seq<A>, n: nat, f: A -> Result<Option<B>>)
    requires n <= |xs| && Collect(xs[..n], f).Failure?
    ensures Collect(xs, f) == Collect(xs[..n], f)
    decreases |xs| - n
  {
    if n < |xs| {
      CollectStep(xs, n, f);
      CollectKeepsFailure(xs, n + 1, f);
    } else {
      assert xs[..n] == xs;
    }
  }

  /**
   The loop succeeds exactly when every element does, and then it holds exactly the elements
   given by the inputs that give one.
   */
  lemma {:induction false} CollectSpec<A, B>(xs: seq<A>, f: A -> Result<Option<B>>)
    ensures Collect(xs, f).Success? <==> forall k :: 0 <= k < |xs| ==> f(xs[k]).Success?
    ensures Collect(xs, f).Success? ==>
      forall y :: y in Collect(xs, f).value ==> exists k :: 0 <= k < |xs| && f(xs[k]) == Success(Some(y))
    ensures Collect(xs, f).Success? ==>
      forall k :: 0 <= k < |xs| && f(xs[k]).Success? && f(xs[k]).value.Some? ==> f(xs[k]).value.value in Collect(xs, f).value
  {
    if xs != [] {
      var n := |xs| - 1;
      var init := xs[..n];
      CollectSpec(init, f);
      assert forall k :: 0 <= k < n ==> init[k] == xs[k];
      if Collect(xs, f).Success? {
        var prev := Collect(init, f).value;
        forall y | y in Collect(xs, f).value
          ensures exists k :: 0 <= k < |xs| && f(xs[k]) == Success(Some(y))
        {
          if y in prev {
            var k :| 0 <= k < |init| && f(init[k]) == Success(Some(y));
            assert xs[k] == init[k];
          } else {
            assert f(xs[n]) == Success(Some(y));
          }
        }
      } else if Collect(init, f).Success? {
        assert f(xs[n]).Failure?;
      } else {
        var k :| 0 <= k < |init| && !f(init[k]).Success?;
      }
    }
  }

  /** A failing loop fails with the error of its first failing element. */
  lemma {:induction false} CollectFirstError<A, B>(xs: seq<A>, f: A -> Result<Option<B>>)
    requires Collect(xs, f).Failure?
    ensures exists k :: && 0 <= k < |xs| && f(xs[k]) == Failure(Collect(xs, f).error)
                        && forall j :: 0 <= j < k ==> f(xs[j]).Success?
  {
    var n := |xs| - 1;
    var init := xs[..n];
    assert forall k :: 0 <= k < n ==> init[k] == xs[k];
    if Collect(init, f).Failure? {
      CollectFirstError(init, f);
      var k :| 0 <= k < n && f(init[k]) == Failure(Collect(init, f).error)
        && forall j :: 0 <= j < k ==> f(init[j]).Success?;
    } else {
      CollectSpec(init, f);
    }
  }

  predicate NoDuplicates<T(==)>(xs: seq<T>) {
    forall i, j :: 0 <= i < j < |xs| ==> xs[i] != xs[j]
  }

  /** The index of the first occurrence of `x`. */
  function FirstIndex<T(==)>(xs: seq<T>, x: T): (k: nat)
    requires x in xs
    ensures k < |xs| && xs[k] == x && x !in xs[..k]
  {
    if xs[0] == x then 0
    else
      var k := 1 + FirstIndex(xs[1..], x);
      assert xs[..k] == [xs[0]] + xs[1..][..k - 1];
      k
  }

  /**
   `results = []; for x in xs: if x not in results: results.append(x)`: one copy of each
   element, in the order of first occurrence.
   */
  function Dedup<T(==)>(xs: seq<T>): (r: seq<T>)
    ensures NoDuplicates(r)
    ensures forall x :: x in r ==> x in xs
    ensures forall x :: x in xs ==> x in r
  {
    if xs == [] then []
    else
      var init, last := xs[..|xs| - 1], xs[|xs| - 1];
      assert xs == init + [last];
      var d := Dedup(init);
      if last in d then d else d + [last]
  }

  lemma FirstIndexOfPrefix<T>(xs: seq<T>, n: nat, x: T)
    requires n <= |xs| && x in xs[..n]
    ensures FirstIndex(xs[..n], x) == FirstIndex(xs, x)
  {
    var k := FirstIndex(xs[..n], x);
    var m := FirstIndex(xs, x);
    assert xs[..n][..k] == xs[..k];
    assert xs[k] == x;
    if m < k {
      assert false;
    } else if k < m {
      assert false;
    }
  }

  /** The kept copies appear in the order of their first occurrences in the input. */
  lemma {:induction false} DedupFirstOccurrenceOrder<T>(xs: seq<T>)
    ensures forall i, j :: 0 <= i < j < |Dedup(xs)| ==> FirstIndex(xs, Dedup(xs)[i]) < FirstIndex(xs, Dedup(xs)[j])
  {
    if xs != [] {
      var n := |xs| - 1;
      var init, last := xs[..n], xs[n];
      DedupFirstOccurrenceOrder(init);
      var d := Dedup(init);
      var r := Dedup(xs);
      forall i, j | 0 <= i < j < |r|
        ensures FirstIndex(xs, r[i]) < FirstIndex(xs, r[j])
      {
        assert r[i] == d[i] && r[i] in init;
        FirstIndexOfPrefix(xs, n, r[i]);
        if j < |d| {
          assert r[j] == d[j] && r[j] in init;
          FirstIndexOfPrefix(xs, n, r[j]);
          assert FirstIndex(init, d[i]) < FirstIndex(init, d[j]);
        } else {
          assert r[j] == last && last !in init;
          assert FirstIndex(xs, last) == n;
        }
      }
    }
  }

  /** Python's `xs[front:-back]` for positive `front` and `back`. */
  function DropEnds<T>(xs: seq<T>, front: nat, back: nat): (r: seq<T>)
    requires back >= 1
    ensures |r| == if |xs| <= front + back then 0 else |xs| - front - back
    ensures forall k :: 0 <= k < |r| ==> r[k] == xs[front + k]
  {
    if |xs| <= front + back then [] else xs[front..|xs| - back]
  }
}
