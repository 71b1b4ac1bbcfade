/**
 Generic operations on tables held as sequences of rows, in the order a
 query returns them: the first matching row, a `WHERE` selection, an
 `UPDATE ... WHERE`, and a projection.
 */
module Rows {
  import opened Optional

  /** Index of the first row satisfying `p`: what `rows[0]` of a query is. */
  function FirstIndex<T>(xs: seq<T>, p: T -> bool): (r: Option<nat>)
    ensures r.Some? ==> r.value < |xs| && p(xs[r.value])
    ensures r.Some? ==> forall j :: 0 <= j < r.value ==> !p(xs[j])
    ensures r.None? <==> forall j :: 0 <= j < |xs| ==> !p(xs[j])
  {
    if |xs| == 0 then None
    else if p(xs[0]) then Some(0)
    else match FirstIndex(xs[1..], p)
      case None => None
      case Some(k) => Some(k + 1)
  }

  /** Two tables whose rows agree, position by position, on the condition have the same first match. */
  lemma {:induction false} FirstIndexAgree<T, U>(xs: seq<T>, p: T -> bool, ys: seq<U>, q: U -> bool)
    requires |xs| == |ys|
    requires forall i :: 0 <= i < |xs| ==> p(xs[i]) == q(ys[i])
    ensures FirstIndex(xs, p) == FirstIndex(ys, q)
  {
    if |xs| > 0 && !p(xs[0]) {
      FirstIndexAgree(xs[1..], p, ys[1..], q);
    }
  }

  /** A row satisfying `p` with none before it is the first match. */
  lemma {:induction false} FirstIndexAt<T>(xs: seq<T>, p: T -> bool, k: nat)
    requires k < |xs| && p(xs[k])
    requires forall j :: 0 <= j < k ==> !p(xs[j])
    ensures FirstIndex(xs, p) == Some(k)
  {
    if k > 0 {
      FirstIndexAt(xs[1..], p, k - 1);
    }
  }

  /** The rows satisfying `p`, in their original order (`SELECT ... WHERE p`). */
  function Select<T(!new)>(xs: seq<T>, p: T -> bool): (r: seq<T>)
    ensures |r| <= |xs|
    ensures forall x :: x in r <==> x in xs && p(x)
  {
    if |xs| == 0 then []
    else (if p(xs[0]) then [xs[0]] else []) + Select(xs[1..], p)
  }

  /** Every row satisfying `p` rewritten by `f`, all others kept (`UPDATE ... WHERE p`). */
  function Update<T>(xs: seq<T>, p: T -> bool, f: T -> T): seq<T>
  {
    seq(|xs|, i requires 0 <= i < |xs| => if p(xs[i]) then f(xs[i]) else xs[i])
  }

  /** Projection of every row through `f`. */
  function Map<A, B>(xs: seq<A>, f: A -> B): seq<B>
  {
    seq(|xs|, i requires 0 <= i < |xs| => f(xs[i]))
  }

  /** No two rows share a key (a primary key or a unique constraint). */
  ghost predicate DistinctBy<T, K>(xs: seq<T>, key: T -> K)
  {
    forall i, j :: 0 <= i < j < |xs| ==> key(xs[i]) != key(xs[j])
  }

  lemma {:induction false} SelectAppend<T(!new)>(xs: seq<T>, ys: seq<T>, p: T -> bool)
    ensures Select(xs + ys, p) == Select(xs, p) + Select(ys, p)
  {
    if |xs| == 0 {
      assert xs + ys == ys;
    } else {
      assert (xs + ys)[1..] == xs[1..] + ys;
      SelectAppend(xs[1..], ys, p);
    }
  }

  lemma {:induction false} SelectAll<T(!new)>(xs: seq<T>, p: T -> bool)
    requires forall i :: 0 <= i < |xs| ==> p(xs[i])
    ensures Select(xs, p) == xs
  {
    if |xs| > 0 {
      SelectAll(xs[1..], p);
      assert [xs[0]] + xs[1..] == xs;
    }
  }

  lemma SelectNone<T(!new)>(xs: seq<T>, p: T -> bool)
    requires forall i :: 0 <= i < |xs| ==> !p(xs[i])
    ensures Select(xs, p) == []
  {
  }

  /** Selecting twice by the same condition selects nothing more. */
  lemma SelectTwice<T(!new)>(xs: seq<T>, p: T -> bool)
    ensures Select(Select(xs, p), p) == Select(xs, p)
  {
    var ys := Select(xs, p);
    forall i | 0 <= i < |ys|
      ensures p(ys[i])
    {
      assert ys[i] in ys;
    }
    SelectAll(ys, p);
  }

  /** A selection of rows with distinct keys still has distinct keys. */
  lemma {:induction false} SelectDistinct<T(!new), K>(xs: seq<T>, p: T -> bool, key: T -> K)
    requires DistinctBy(xs, key)
    ensures DistinctBy(Select(xs, p), key)
  {
    if |xs| > 0 {
      var tail := xs[1..];
      assert DistinctBy(tail, key) by {
        forall i, j | 0 <= i < j < |tail|
          ensures key(tail[i]) != key(tail[j])
        {
          assert tail[i] == xs[i + 1] && tail[j] == xs[j + 1];
        }
      }
      SelectDistinct(tail, p, key);
      var rest := Select(tail, p);
      if p(xs[0]) {
        forall y | y in rest
          ensures key(y) != key(xs[0])
        {
          assert y in tail;
          var k :| 0 <= k < |tail| && tail[k] == y;
          assert xs[k + 1] == y;
        }
        var r := [xs[0]] + rest;
        forall i, j | 0 <= i < j < |r|
          ensures key(r[i]) != key(r[j])
        {
          if i == 0 {
            assert r[j] == rest[j - 1];
            assert rest[j - 1] in rest;
          } else {
            assert r[i] == rest[i - 1] && r[j] == rest[j - 1];
          }
        }
      } else {
        assert Select(xs, p) == rest;
      }
    }
  }

  /** A projection of an appended table is the appended projections. */
  lemma MapAppend<A, B>(xs: seq<A>, ys: seq<A>, f: A -> B)
    ensures Map(xs + ys, f) == Map(xs, f) + Map(ys, f)
  {
  }
}
