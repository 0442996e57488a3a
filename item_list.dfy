/** Operations of the stack's item collection that the controller relies on:
    removing one element by identity (first occurrence, a no-op when absent),
    and the effect of a batch of such removals completing one after another. */
module ItemList {

  /** No element occurs twice: the collection holds each element at most once. */
  predicate Distinct<T(==)>(s: seq<T>)
  {
    forall i, j :: 0 <= i < j < |s| ==> s[i] != s[j]
  }

  /** The collection's `Remove(x)`: drops the first occurrence of `x`, and
      leaves the collection as it was when `x` is not in it. */
  function RemoveFirst<T(==)>(s: seq<T>, x: T): (r: seq<T>)
    ensures x !in s ==> r == s
    ensures |r| == if x in s then |s| - 1 else |s|
  {
    if s == [] then []
    else if s[0] == x then s[1..]
    else [s[0]] + RemoveFirst(s[1..], x)
  }

  /** When `i` is the first position of `x`, removing `x` deletes exactly the
      element at `i` and keeps the others in order. */
  lemma {:induction false} RemoveFirstAt<T>(s: seq<T>, x: T, i: nat)
    requires i < |s| && s[i] == x
    requires forall j :: 0 <= j < i ==> s[j] != x
    ensures RemoveFirst(s, x) == s[..i] + s[i + 1..]
  {
    if i == 0 {
      assert s[..0] + s[1..] == s[1..];
    } else {
      RemoveFirstAt(s[1..], x, i - 1);
      assert s[..i] == [s[0]] + s[1..][..i - 1];
      assert s[i + 1..] == s[1..][i..];
    }
  }

  lemma DistinctCons<T>(a: T, t: seq<T>)
    requires a !in t && Distinct(t)
    ensures Distinct([a] + t)
  {
    var s := [a] + t;
    forall i, j | 0 <= i < j < |s| ensures s[i] != s[j] {
      assert s[j] == t[j - 1];
      if i > 0 { assert s[i] == t[i - 1]; }
    }
  }

  /** Removing `x` keeps every other element and adds nothing. */
  lemma {:induction false} RemoveFirstMembers<T>(s: seq<T>, x: T, y: T)
    requires y != x
    ensures y in RemoveFirst(s, x) <==> y in s
  {
    if s != [] && s[0] != x {
      RemoveFirstMembers(s[1..], x, y);
      assert RemoveFirst(s, x) == [s[0]] + RemoveFirst(s[1..], x);
      assert s == [s[0]] + s[1..];
    }
  }

  /** On a collection without duplicates, removing `x` removes it entirely,
      shortens the collection by one when `x` was there, and keeps the
      collection duplicate-free. */
  lemma {:induction false} RemoveFirstDistinct<T>(s: seq<T>, x: T)
    requires Distinct(s)
    ensures Distinct(RemoveFirst(s, x))
    ensures x !in RemoveFirst(s, x)
    ensures x in s ==> |RemoveFirst(s, x)| == |s| - 1
  {
    if s != [] {
      assert Distinct(s[1..]);
      if s[0] == x {
        assert forall k :: 1 <= k < |s| ==> s[k] != s[0];
        assert x !in s[1..];
      } else {
        RemoveFirstDistinct(s[1..], x);
        RemoveFirstMembers(s[1..], x, s[0]);
        assert s[0] !in s[1..] by {
          assert forall k :: 1 <= k < |s| ==> s[k] != s[0];
        }
        DistinctCons(s[0], RemoveFirst(s[1..], x));
      }
    }
  }

  /** Removing the same element twice has the effect of removing it once. */
  lemma RemoveFirstIdempotent<T>(s: seq<T>, x: T)
    requires Distinct(s)
    ensures RemoveFirst(RemoveFirst(s, x), x) == RemoveFirst(s, x)
  {
    RemoveFirstDistinct(s, x);
  }

  /** The removals requested for `xs` completing in the order of `xs`. */
  function RemoveEach<T(==)>(s: seq<T>, xs: seq<T>): seq<T>
    decreases xs
  {
    if xs == [] then s else RemoveEach(RemoveFirst(s, xs[0]), xs[1..])
  }

  /** The elements of `s` that are not in `gone`, in their original order. */
  function Without<T(==)>(s: seq<T>, gone: seq<T>): (r: seq<T>)
    ensures |r| <= |s|
    ensures forall i :: 0 <= i < |r| ==> r[i] in s && r[i] !in gone
    ensures forall i :: 0 <= i < |s| && s[i] !in gone ==> s[i] in r
  {
    if s == [] then []
    else (if s[0] in gone then [] else [s[0]]) + Without(s[1..], gone)
  }

  lemma {:induction false} WithoutAppend<T>(a: seq<T>, b: seq<T>, gone: seq<T>)
    ensures Without(a + b, gone) == Without(a, gone) + Without(b, gone)
  {
    if a == [] {
      assert a + b == b;
    } else {
      assert (a + b)[0] == a[0];
      assert (a + b)[1..] == a[1..] + b;
      WithoutAppend(a[1..], b, gone);
    }
  }

  /** `Without` depends only on which elements of `t` are removed. */
  lemma {:induction false} WithoutSameOn<T>(t: seq<T>, g1: seq<T>, g2: seq<T>)
    requires forall y :: y in t ==> (y in g1 <==> y in g2)
    ensures Without(t, g1) == Without(t, g2)
  {
    if t != [] {
      WithoutSameOn(t[1..], g1, g2);
    }
  }

  lemma {:induction false} WithoutNothingGone<T>(s: seq<T>, gone: seq<T>)
    requires forall y :: y in s ==> y !in gone
    ensures Without(s, gone) == s
  {
    if s != [] {
      WithoutNothingGone(s[1..], gone);
    }
  }

  lemma {:induction false} WithoutAllGone<T>(s: seq<T>, gone: seq<T>)
    requires forall y :: y in s ==> y in gone
    ensures Without(s, gone) == []
  {
    if s != [] {
      WithoutAllGone(s[1..], gone);
    }
  }

  lemma {:induction false} WithoutTwice<T>(s: seq<T>, x: T, gone: seq<T>)
    ensures Without(Without(s, [x]), gone) == Without(s, [x] + gone)
  {
    if s != [] {
      WithoutTwice(s[1..], x, gone);
      assert s[0] in [x] + gone <==> s[0] == x || s[0] in gone;
      if s[0] == x {
        assert Without(s, [x]) == Without(s[1..], [x]);
      } else {
        assert Without(s, [x]) == [s[0]] + Without(s[1..], [x]);
        assert ([s[0]] + Without(s[1..], [x]))[1..] == Without(s[1..], [x]);
      }
    }
  }

  lemma {:induction false} RemoveFirstIsWithout<T>(s: seq<T>, x: T)
    requires Distinct(s)
    ensures RemoveFirst(s, x) == Without(s, [x])
  {
    if s != [] {
      assert Distinct(s[1..]);
      RemoveFirstIsWithout(s[1..], x);
      if s[0] == x {
        WithoutNothingGone(s[1..], [x]);
      }
    }
  }

  /** On a duplicate-free collection, once a batch of removals has completed
      the survivors are exactly the elements that were not requested, in
      their original order, whatever order the completions arrived in. */
  lemma {:induction false} RemoveEachIsWithout<T>(s: seq<T>, xs: seq<T>)
    requires Distinct(s)
    ensures RemoveEach(s, xs) == Without(s, xs)
    decreases xs
  {
    if xs == [] {
      WithoutNothingGone(s, xs);
    } else {
      RemoveFirstIsWithout(s, xs[0]);
      RemoveFirstDistinct(s, xs[0]);
      RemoveEachIsWithout(RemoveFirst(s, xs[0]), xs[1..]);
      WithoutTwice(s, xs[0], xs[1..]);
      assert [xs[0]] + xs[1..] == xs;
    }
  }
}
