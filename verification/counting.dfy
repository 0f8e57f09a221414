/** Counting the elements of a sequence that satisfy a predicate, used to
    count emitted events. */
module Counting {

  function Count<T>(xs: seq<T>, p: T -> bool): nat
  {
    if |xs| == 0 then 0 else (if p(xs[0]) then 1 else 0) + Count(xs[1..], p)
  }

  lemma {:induction false} CountAppend<T>(a: seq<T>, b: seq<T>, p: T -> bool)
    ensures Count(a + b, p) == Count(a, p) + Count(b, p)
  {
    if |a| == 0 {
      assert a + b == b;
    } else {
      assert (a + b)[1..] == a[1..] + b;
      CountAppend(a[1..], b, p);
    }
  }

  lemma CountSingle<T>(x: T, p: T -> bool)
    ensures Count([x], p) == (if p(x) then 1 else 0)
  {
    assert [x][1..] == [];
  }

  lemma {:induction false} CountNone<T>(xs: seq<T>, p: T -> bool)
    requires forall k :: 0 <= k < |xs| ==> !p(xs[k])
    ensures Count(xs, p) == 0
  {
    if |xs| > 0 {
      CountNone(xs[1..], p);
    }
  }

  /** A sequence whose every element has exactly one of two properties is as
      long as the two counts together. */
  lemma {:induction false} CountSplit<T>(xs: seq<T>, p: T -> bool, q: T -> bool)
    requires forall k :: 0 <= k < |xs| ==> p(xs[k]) != q(xs[k])
    ensures |xs| == Count(xs, p) + Count(xs, q)
  {
    if |xs| > 0 {
      CountSplit(xs[1..], p, q);
    }
  }
}
