/** Order-preserving filters of sequences by a set, shared by the models below. */
module SeqFilter {

  ghost predicate Distinct<T>(xs: seq<T>) {
    forall i, j :: 0 <= i < j < |xs| ==> xs[i] != xs[j]
  }

  ghost function Elements<T>(xs: seq<T>): set<T> {
    set x | x in xs
  }

  /** The elements of xs outside drop, in their order. */
  function Without<T(==)>(xs: seq<T>, drop: set<T>): seq<T> {
    if xs == [] then []
    else if xs[0] in drop then Without(xs[1..], drop)
    else [xs[0]] + Without(xs[1..], drop)
  }

  /** The elements of xs inside keep, in their order. */
  function Within<T(==)>(xs: seq<T>, keep: set<T>): seq<T> {
    if xs == [] then []
    else if xs[0] in keep then [xs[0]] + Within(xs[1..], keep)
    else Within(xs[1..], keep)
  }

  lemma {:induction false} WithoutMember<T>(xs: seq<T>, drop: set<T>, x: T)
    ensures x in Without(xs, drop) <==> x in xs && x !in drop
  {
    if xs != [] {
      WithoutMember(xs[1..], drop, x);
      assert xs == [xs[0]] + xs[1..];
    }
  }

  lemma {:induction false} WithinMember<T>(xs: seq<T>, keep: set<T>, x: T)
    ensures x in Within(xs, keep) <==> x in xs && x in keep
  {
    if xs != [] {
      WithinMember(xs[1..], keep, x);
      assert xs == [xs[0]] + xs[1..];
    }
  }

  /** No element of a sequence without repetition has multiplicity above one. */
  lemma {:induction false} DistinctOnce<T>(xs: seq<T>, x: T)
    requires Distinct(xs)
    ensures multiset(xs)[x] == if x in xs then 1 else 0
  {
    if xs != [] {
      DistinctOnce(xs[1..], x);
      assert xs == [xs[0]] + xs[1..];
    }
  }

  lemma {:induction false} WithoutConcat<T>(xs: seq<T>, ys: seq<T>, drop: set<T>)
    ensures Without(xs + ys, drop) == Without(xs, drop) + Without(ys, drop)
  {
    if xs == [] {
      assert xs + ys == ys;
    } else {
      assert (xs + ys)[1..] == xs[1..] + ys;
      WithoutConcat(xs[1..], ys, drop);
    }
  }

  lemma {:induction false} WithinConcat<T>(xs: seq<T>, ys: seq<T>, keep: set<T>)
    ensures Within(xs + ys, keep) == Within(xs, keep) + Within(ys, keep)
  {
    if xs == [] {
      assert xs + ys == ys;
    } else {
      assert (xs + ys)[1..] == xs[1..] + ys;
      WithinConcat(xs[1..], ys, keep);
    }
  }

  /** Both filters, one element further along. */
  lemma FilterNext<T>(xs: seq<T>, i: nat, part: set<T>)
    requires i < |xs|
    ensures Within(xs[..i + 1], part) == Within(xs[..i], part) + if xs[i] in part then [xs[i]] else []
    ensures Without(xs[..i + 1], part) == Without(xs[..i], part) + if xs[i] in part then [] else [xs[i]]
  {
    assert xs[..i + 1] == xs[..i] + [xs[i]];
    WithinConcat(xs[..i], [xs[i]], part);
    WithoutConcat(xs[..i], [xs[i]], part);
  }

  lemma FilterRest<T>(xs: seq<T>, k: nat, part: set<T>)
    requires k < |xs|
    ensures Within(xs[k..], part) == (if xs[k] in part then [xs[k]] else []) + Within(xs[k + 1..], part)
    ensures Without(xs[k..], part) == (if xs[k] in part then [] else [xs[k]]) + Without(xs[k + 1..], part)
  {
    assert xs[k..][1..] == xs[k + 1..];
  }

  /** Dropping in two rounds is dropping the union. */
  lemma {:induction false} WithoutTwice<T>(xs: seq<T>, first: set<T>, second: set<T>)
    ensures Without(Without(xs, first), second) == Without(xs, first + second)
  {
    if xs != [] {
      WithoutTwice(xs[1..], first, second);
      if xs[0] !in first {
        assert Without(xs, first)[1..] == Without(xs[1..], first);
      }
    }
  }

  lemma {:induction false} WithoutNothing<T>(xs: seq<T>, drop: set<T>)
    requires forall x :: x in xs ==> x !in drop
    ensures Without(xs, drop) == xs
  {
    if xs != [] {
      WithoutNothing(xs[1..], drop);
    }
  }

  lemma {:induction false} WithoutDistinct<T>(xs: seq<T>, drop: set<T>)
    requires Distinct(xs)
    ensures Distinct(Without(xs, drop))
  {
    if xs != [] {
      WithoutDistinct(xs[1..], drop);
      WithoutMember(xs[1..], drop, xs[0]);
    }
  }

  lemma {:induction false} WithinDistinct<T>(xs: seq<T>, keep: set<T>)
    requires Distinct(xs)
    ensures Distinct(Within(xs, keep))
  {
    if xs != [] {
      WithinDistinct(xs[1..], keep);
      WithinMember(xs[1..], keep, xs[0]);
    }
  }

  /** In a sequence without repetition, dropping one element cuts out its one position. */
  lemma {:induction false} WithoutOne<T>(xs: seq<T>, k: nat)
    requires Distinct(xs) && k < |xs|
    ensures Without(xs, {xs[k]}) == xs[..k] + xs[k + 1..]
  {
    if k == 0 {
      WithoutNothing(xs[1..], {xs[0]});
    } else {
      WithoutOne(xs[1..], k - 1);
      assert xs[..k] + xs[k + 1..] == [xs[0]] + (xs[1..][..k - 1] + xs[1..][k..]);
    }
  }

  lemma Associate<T>(a: seq<T>, b: seq<T>, c: seq<T>)
    ensures (a + b) + c == a + (b + c)
  {
  }

  lemma CutMultiset<T>(xs: seq<T>, k: nat)
    requires k < |xs|
    ensures multiset(xs) == multiset(xs[..k] + xs[k + 1..]) + multiset{xs[k]}
  {
    assert xs == xs[..k] + [xs[k]] + xs[k + 1..];
  }
}
