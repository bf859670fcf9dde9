/** Index shifts between a sequence and its tail, and the filter-map a
    loop performs when it appends the results of the iterations that did
    not raise. */
module Seqs {
  import opened Wrappers

  /** The defined images under `f`, in input order. */
  function KeepSome<T, U>(xs: seq<T>, f: T -> Option<U>): (r: seq<U>)
    ensures |r| <= |xs|
    decreases |xs|
  {
    if xs == [] then []
    else
      match f(xs[0])
      case Some(y) => [y] + KeepSome(xs[1..], f)
      case None => KeepSome(xs[1..], f)
  }

  /** Each element is kept or dropped on its own, and the kept ones keep
      their order. */
  lemma {:induction false} KeepSomeAppend<T, U>(a: seq<T>, b: seq<T>, f: T -> Option<U>)
    ensures KeepSome(a + b, f) == KeepSome(a, f) + KeepSome(b, f)
    decreases |a|
  {
    if a == [] {
      assert a + b == b;
    } else {
      assert (a + b)[0] == a[0] && (a + b)[1..] == a[1..] + b;
      KeepSomeAppend(a[1..], b, f);
    }
  }

  /** A value is kept exactly when some element maps to it. */
  lemma {:induction false} KeepSomeMembers<T, U>(xs: seq<T>, f: T -> Option<U>)
    ensures forall y :: y in KeepSome(xs, f) <==> exists i :: 0 <= i < |xs| && f(xs[i]) == Some(y)
    decreases |xs|
  {
    if xs != [] {
      KeepSomeMembers(xs[1..], f);
      forall y
        ensures (exists i :: 0 <= i < |xs| && f(xs[i]) == Some(y))
           <==> (f(xs[0]) == Some(y) || exists i :: 0 <= i < |xs[1..]| && f(xs[1..][i]) == Some(y))
      {
        SomeShift(xs, x => f(x) == Some(y));
      }
    }
  }
  /** Some element satisfies `p` exactly when the first does or some later one does. */
  lemma SomeShift<T>(xs: seq<T>, p: T -> bool)
    requires xs != []
    ensures (exists k :: 0 <= k < |xs| && p(xs[k])) <==> p(xs[0]) || exists k :: 0 <= k < |xs[1..]| && p(xs[1..][k])
  {
    if exists k :: 0 <= k < |xs| && p(xs[k]) {
      var k :| 0 <= k < |xs| && p(xs[k]);
      if k > 0 {
        assert xs[1..][k - 1] == xs[k];
      }
    }
    if exists k :: 0 <= k < |xs[1..]| && p(xs[1..][k]) {
      var k :| 0 <= k < |xs[1..]| && p(xs[1..][k]);
      assert xs[k + 1] == xs[1..][k];
    }
  }

  /** The first element of the tail satisfying `p`, behind a first element
      that does not, is the first such element of the whole sequence. */
  lemma FirstShift<T>(xs: seq<T>, p: T -> bool, k: int)
    requires xs != [] && !p(xs[0])
    requires 0 <= k < |xs| - 1 && forall j :: 0 <= j < k ==> !p(xs[1..][j])
    ensures xs[k + 1] == xs[1..][k]
    ensures forall j :: 0 <= j < k + 1 ==> !p(xs[j])
  {
    forall j | 0 < j < k + 1 ensures !p(xs[j]) {
      assert xs[j] == xs[1..][j - 1];
    }
  }

  /** The concatenated results of `f` over `xs` in order; the first failure
      aborts the whole. */
  function ConcatAll<T, U, E>(xs: seq<T>, f: T -> Result<seq<U>, E>): (r: Result<seq<U>, E>)
    ensures r.Failure? <==> exists i :: 0 <= i < |xs| && f(xs[i]).Failure?
    decreases |xs|
  {
    if xs == [] then Success([])
    else
      SomeShift(xs, x => f(x).Failure?);
      var first :- f(xs[0]);
      var rest :- ConcatAll(xs[1..], f);
      Success(first + rest)
  }

  lemma ConcatAllSingle<T, U, E>(x: T, f: T -> Result<seq<U>, E>)
    ensures ConcatAll([x], f) == f(x)
  {
    assert [x][1..] == [];
    if f(x).Success? {
      assert f(x).value + [] == f(x).value;
    }
  }

  /** The parts of a concatenation are treated one after another: its
      result succeeds exactly when both parts do, and is then the
      concatenation of theirs. */
  lemma {:induction false} ConcatAllAppend<T, U, E>(a: seq<T>, b: seq<T>, f: T -> Result<seq<U>, E>)
    ensures ConcatAll(a + b, f).Success? <==> ConcatAll(a, f).Success? && ConcatAll(b, f).Success?
    ensures ConcatAll(a + b, f).Success? ==> ConcatAll(a + b, f).value == ConcatAll(a, f).value + ConcatAll(b, f).value
    decreases |a|
  {
    if a == [] {
      assert a + b == b;
    } else {
      assert (a + b)[0] == a[0] && (a + b)[1..] == a[1..] + b;
      ConcatAllAppend(a[1..], b, f);
      if ConcatAll(a + b, f).Success? {
        var first, t, u := f(a[0]).value, ConcatAll(a[1..], f).value, ConcatAll(b, f).value;
        assert first + (t + u) == (first + t) + u;
      }
    }
  }
}
