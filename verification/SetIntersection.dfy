/** std::set_intersection, run on ranges that need not be sorted. */
module SetIntersection {
  import opened Common
  import opened SeqFilter

  ghost predicate Sorted(xs: seq<int>) {
    forall i, j :: 0 <= i < j < |xs| ==> xs[i] < xs[j]
  }

  /** An order in which a container may yield the elements of s. */
  ghost predicate Enumerates<T>(xs: seq<T>, s: set<T>) {
    Distinct(xs) && Elements(xs) == s
  }

  /** The order in which a hash container yields its elements: any. */
  method SomeOrder<T(==)>(s: set<T>) returns (order: seq<T>)
    ensures Enumerates(order, s)
  {
    order := [];
    var todo := s;
    while todo != {}
      invariant todo <= s && Distinct(order)
      invariant Elements(order) == s - todo
      decreases todo
    {
      var next :| next in todo;
      assert Elements(order + [next]) == Elements(order) + {next};
      order := order + [next];
      todo := todo - {next};
    }
  }

  /** The algorithm as a function: the smaller of the two fronts is skipped, equal fronts are output. */
  function Merge(a: seq<int>, b: seq<int>): seq<int>
    decreases |a| + |b|
  {
    if a == [] || b == [] then []
    else if a[0] < b[0] then Merge(a[1..], b)
    else if b[0] < a[0] then Merge(a, b[1..])
    else [a[0]] + Merge(a[1..], b[1..])
  }

  method Intersect(a: seq<int>, b: seq<int>) returns (out: seq<int>)
    ensures out == Merge(a, b)
  {
    var i, j := 0, 0;
    out := [];
    while i < |a| && j < |b|
      invariant i <= |a| && j <= |b|
      invariant Merge(a, b) == out + Merge(a[i..], b[j..])
    {
      if a[i] < b[j] {
        i := i + 1;
      } else {
        if !(b[j] < a[i]) {
          ghost var rest := Merge(a[i + 1..], b[j + 1..]);
          assert out + ([a[i]] + rest) == out + [a[i]] + rest;
          out := out + [a[i]];
          i := i + 1;
        }
        j := j + 1;
      }
    }
  }

  /** Whatever the orders, only common elements are output, each at most once. */
  lemma {:induction false} MergeIsSound(a: seq<int>, b: seq<int>)
    requires Distinct(a) && Distinct(b)
    ensures Distinct(Merge(a, b)) && forall x <- Merge(a, b) :: x in a && x in b
    decreases |a| + |b|
  {
    if a != [] && b != [] {
      if a[0] < b[0] {
        MergeIsSound(a[1..], b);
      } else if b[0] < a[0] {
        MergeIsSound(a, b[1..]);
      } else {
        MergeIsSound(a[1..], b[1..]);
        assert a[0] !in a[1..];
      }
    }
  }

  // ---- exactly when it finds every common element ----

  ghost predicate Complete(a: seq<int>, b: seq<int>) {
    forall x :: x in a && x in b ==> x in Merge(a, b)
  }

  /** The elements of a that b has too, in a's order. */
  function Shared(a: seq<int>, b: seq<int>): seq<int> {
    if a == [] then [] else (if a[0] in b then [a[0]] else []) + Shared(a[1..], b)
  }

  /** In a, an unshared element is smaller than the next shared one. */
  ghost predicate GapsBelow(a: seq<int>, b: seq<int>) {
    forall i, p :: 0 <= i < p < |a| && a[p] in b && (forall k :: i <= k < p ==> a[k] !in b) ==> a[i] < a[p]
  }

  /** The two ranges list the shared elements in one order, and in each an unshared element is
      smaller than the next shared one. Sorted ranges are like that; so are many others. */
  ghost predicate Compatible(a: seq<int>, b: seq<int>) {
    Shared(a, b) == Shared(b, a) && GapsBelow(a, b) && GapsBelow(b, a)
  }

  lemma {:induction false} SharedMember(a: seq<int>, b: seq<int>, x: int)
    ensures x in Shared(a, b) <==> x in a && x in b
  {
    if a != [] {
      SharedMember(a[1..], b, x);
      assert a == [a[0]] + a[1..];
    }
  }

  /** What the other range has beyond a's elements does not matter. */
  lemma {:induction false} SharedSame(a: seq<int>, b: seq<int>, b': seq<int>)
    requires forall x :: x in a ==> (x in b <==> x in b')
    ensures Shared(a, b) == Shared(a, b')
  {
    if a != [] {
      var x := a[0];
      assert x in a;
      assert x in b ==> x in b';
      assert x in b' ==> x in b;
      SharedSame(a[1..], b, b');
      assert Shared(a[1..], b) == Shared(a[1..], b');
    }
  }

  lemma GapsSame(a: seq<int>, b: seq<int>, b': seq<int>)
    requires forall x :: x in a ==> (x in b <==> x in b')
    ensures GapsBelow(a, b) <==> GapsBelow(a, b')
  {
  }

  /** Dropping the front keeps the gaps below; the front's own gap is all there is to add. */
  lemma GapsTail(a: seq<int>, b: seq<int>)
    requires a != []
    ensures GapsBelow(a, b) ==> GapsBelow(a[1..], b)
    ensures GapsBelow(a[1..], b) && (a[0] in b || Shared(a, b) == [] || a[0] < Shared(a, b)[0]) ==> GapsBelow(a, b)
  {
    if GapsBelow(a, b) {
      forall i, p | 0 <= i < p < |a[1..]| && a[1..][p] in b && (forall k :: i <= k < p ==> a[1..][k] !in b)
        ensures a[1..][i] < a[1..][p]
      {
        forall k | i + 1 <= k < p + 1 ensures a[k] !in b { assert a[k] == a[1..][k - 1]; }
        assert a[i + 1] < a[p + 1];
      }
    }
    if GapsBelow(a[1..], b) && (a[0] in b || Shared(a, b) == [] || a[0] < Shared(a, b)[0]) {
      forall i, p | 0 <= i < p < |a| && a[p] in b && (forall k :: i <= k < p ==> a[k] !in b)
        ensures a[i] < a[p]
      {
        if i == 0 {
          FirstShared(a, b, p);
        } else {
          forall k | i - 1 <= k < p - 1 ensures a[1..][k] !in b { assert a[1..][k] == a[k + 1]; }
          assert a[1..][i - 1] < a[1..][p - 1];
        }
      }
    }
  }

  lemma {:induction false} FirstShared(a: seq<int>, b: seq<int>, p: nat)
    requires p < |a| && a[p] in b && forall k :: 0 <= k < p ==> a[k] !in b
    ensures Shared(a, b) != [] && Shared(a, b)[0] == a[p]
  {
    if p > 0 {
      FirstShared(a[1..], b, p - 1);
    }
  }

  lemma {:induction false} FindFirstShared(a: seq<int>, b: seq<int>) returns (p: nat)
    requires Shared(a, b) != []
    ensures p < |a| && a[p] in b && (forall k :: 0 <= k < p ==> a[k] !in b) && Shared(a, b)[0] == a[p]
  {
    if a[0] in b {
      p := 0;
    } else {
      var q := FindFirstShared(a[1..], b);
      p := q + 1;
      forall k | 0 <= k < p ensures a[k] !in b {
        if k > 0 { assert a[k] == a[1..][k - 1]; }
      }
    }
  }

  lemma FrontAtMostFirstShared(a: seq<int>, b: seq<int>)
    requires GapsBelow(a, b) && Shared(a, b) != []
    ensures a[0] <= Shared(a, b)[0]
  {
    var p := FindFirstShared(a, b);
  }

  /** Both fronts equal: the rest decides. */
  lemma EqualFronts(a: seq<int>, b: seq<int>)
    requires Distinct(a) && Distinct(b) && a != [] && b != [] && a[0] == b[0]
    ensures Complete(a, b) <==> Complete(a[1..], b[1..])
    ensures Compatible(a, b) <==> Compatible(a[1..], b[1..])
    ensures Shared(a, b) == [a[0]] + Shared(a[1..], b[1..])
  {
    var a', b' := a[1..], b[1..];
    assert a == [a[0]] + a' && b == [b[0]] + b';
    assert a[0] !in a' && b[0] !in b';
    assert Merge(a, b) == [a[0]] + Merge(a', b');
    if Complete(a, b) {
      forall x | x in a' && x in b' ensures x in Merge(a', b') { assert x in Merge(a, b); }
    }
    SharedSame(a', b, b');
    SharedSame(b', a, a');
    assert Shared(a, b) == [a[0]] + Shared(a', b') && Shared(b, a) == [a[0]] + Shared(b', a');
    assert Shared(a, b)[1..] == Shared(a', b') && Shared(b, a)[1..] == Shared(b', a');
    GapsTail(a, b);
    GapsTail(b, a);
    GapsSame(a', b, b');
    GapsSame(b', a, a');
  }

  /** The front skipped is unshared: the rest decides. */
  lemma SkipUnshared(a: seq<int>, b: seq<int>)
    requires Distinct(a) && Distinct(b) && a != [] && b != [] && a[0] < b[0] && a[0] !in b
    ensures Complete(a, b) <==> Complete(a[1..], b)
    ensures Compatible(a, b) <==> Compatible(a[1..], b)
  {
    var a' := a[1..];
    assert a == [a[0]] + a';
    assert Complete(a, b) <==> Complete(a', b);
    SharedSame(b, a, a');
    GapsSame(b, a, a');
    assert Shared(a, b) == Shared(a', b);
    GapsTail(a, b);
    if Compatible(a', b) && Shared(a, b) != [] {
      FrontAtMostFirstShared(b, a');
      assert a[0] < Shared(a, b)[0];
    }
  }

  /** The front skipped is shared: it is lost, and the ranges were not compatible. */
  lemma SkipShared(a: seq<int>, b: seq<int>)
    requires Distinct(a) && Distinct(b) && a != [] && b != [] && a[0] < b[0] && a[0] in b
    ensures !Complete(a, b) && !Compatible(a, b)
  {
    MergeIsSound(a[1..], b);
    assert a[0] !in a[1..];
    assert a[0] !in Merge(a, b);
    assert Shared(a, b)[0] == a[0];
    if Shared(a, b) == Shared(b, a) && GapsBelow(b, a) {
      FrontAtMostFirstShared(b, a);
    }
  }

  lemma {:induction false} MergeSymmetric(a: seq<int>, b: seq<int>)
    ensures Merge(a, b) == Merge(b, a)
    decreases |a| + |b|
  {
    if a != [] && b != [] {
      if a[0] < b[0] {
        MergeSymmetric(a[1..], b);
      } else if b[0] < a[0] {
        MergeSymmetric(a, b[1..]);
      } else {
        MergeSymmetric(a[1..], b[1..]);
      }
    }
  }

  lemma SharedEmpty(a: seq<int>, b: seq<int>)
    requires forall x <- a :: x !in b
    ensures Shared(a, b) == []
  {
    if Shared(a, b) != [] {
      SharedMember(a, b, Shared(a, b)[0]);
    }
  }

  /** For ranges without repetition, in any orders: every common element is found if and only if the
      two orders are compatible. */
  lemma {:induction false} CompleteIffCompatible(a: seq<int>, b: seq<int>)
    requires Distinct(a) && Distinct(b)
    ensures Complete(a, b) <==> Compatible(a, b)
    ensures Compatible(a, b) ==> Merge(a, b) == Shared(a, b)
    decreases |a| + |b|
  {
    if a == [] || b == [] {
      SharedEmpty(a, b);
      SharedEmpty(b, a);
    } else if a[0] < b[0] {
      if a[0] in b { SkipShared(a, b); } else {
        CompleteIffCompatible(a[1..], b);
        SkipUnshared(a, b);
      }
    } else if b[0] < a[0] {
      MergeSymmetric(a, b);
      if b[0] in a { SkipShared(b, a); } else {
        CompleteIffCompatible(a, b[1..]);
        MergeSymmetric(a, b[1..]);
        SkipUnshared(b, a);
      }
    } else {
      CompleteIffCompatible(a[1..], b[1..]);
      EqualFronts(a, b);
    }
  }

  // ---- exactly when it does so whatever the orders ----

  lemma {:induction false} OrderOf<T>(s: set<T>) returns (order: seq<T>)
    ensures Enumerates(order, s)
    decreases s
  {
    if s == {} {
      order := [];
    } else {
      var x :| x in s;
      var rest := OrderOf(s - {x});
      order := Before(x, rest, s - {x});
    }
  }

  lemma Before<T>(x: T, rest: seq<T>, s: set<T>) returns (order: seq<T>)
    requires Enumerates(rest, s) && x !in s
    ensures order == [x] + rest && Enumerates(order, s + {x})
  {
    order := [x] + rest;
    forall y ensures y in Elements(order) <==> y in s + {x} {
      assert y in rest <==> y in Elements(rest);
    }
    forall i, j | 0 <= i < j < |order| ensures order[i] != order[j] {
      assert order[j] in Elements(rest);
    }
  }

  lemma StartingWith(s: set<int>, x: int) returns (order: seq<int>)
    requires x in s
    ensures Enumerates(order, s) && order != [] && order[0] == x
  {
    var rest := OrderOf(s - {x});
    assert s - {x} + {x} == s;
    order := Before(x, rest, s - {x});
  }

  lemma EnumeratesMembers(xs: seq<int>, s: set<int>)
    requires Enumerates(xs, s)
    ensures forall x: int :: x in xs <==> x in s
  {
    assert forall x: int :: x in xs <==> x in Elements(xs);
  }

  ghost predicate FoundInAnyOrder(a: set<int>, b: set<int>, s: int) {
    forall xs, ys :: Enumerates(xs, a) && Enumerates(ys, b) ==> s in Merge(xs, ys)
  }

  ghost predicate Largest(s: int, all: set<int>) {
    forall u <- all :: u <= s
  }

  lemma {:induction false} LargestIsNeverSkipped(xs: seq<int>, ys: seq<int>, s: int)
    requires s in xs && s in ys && (forall u: int :: u in xs ==> u <= s) && (forall u: int :: u in ys ==> u <= s)
    ensures s in Merge(xs, ys)
    decreases |xs| + |ys|
  {
    assert xs == [xs[0]] + xs[1..] && ys == [ys[0]] + ys[1..];
    assert xs[0] in xs && ys[0] in ys;
    assert (forall u: int :: u in xs[1..] ==> u in xs) && (forall u: int :: u in ys[1..] ==> u in ys);
    if xs[0] < ys[0] {
      LargestIsNeverSkipped(xs[1..], ys, s);
    } else if ys[0] < xs[0] {
      LargestIsNeverSkipped(xs, ys[1..], s);
    } else if xs[0] != s {
      LargestIsNeverSkipped(xs[1..], ys[1..], s);
    }
  }

  /** An id in front of one range is lost if a larger one is in front of the other. */
  lemma LargerInFrontHides(a: set<int>, b: set<int>, s: int, u: int)
    requires s in b && u in a && u > s
    ensures !FoundInAnyOrder(a, b, s) && !FoundInAnyOrder(b, a, s)
  {
    var xs := StartingWith(a, u);
    var ys := StartingWith(b, s);
    assert s !in ys[1..];
    MergeIsSound(xs, ys[1..]);
    assert s !in Merge(xs, ys);
    MergeSymmetric(xs, ys);
  }

  /** A common element is found in every pair of orders if and only if it is the largest of all. */
  lemma FoundInAnyOrderIff(a: set<int>, b: set<int>, s: int)
    requires s in a && s in b
    ensures FoundInAnyOrder(a, b, s) <==> Largest(s, a + b)
  {
    if Largest(s, a + b) {
      forall xs, ys | Enumerates(xs, a) && Enumerates(ys, b) ensures s in Merge(xs, ys) {
        EnumeratesMembers(xs, a);
        EnumeratesMembers(ys, b);
        assert forall u: int :: u in a || u in b ==> u in a + b;
        LargestIsNeverSkipped(xs, ys, s);
      }
    } else {
      var u :| u in a + b && u > s;
      if u in a { LargerInFrontHides(a, b, s, u); } else { LargerInFrontHides(b, a, s, u); }
    }
  }

  ghost predicate CompleteInAnyOrder(a: set<int>, b: set<int>) {
    forall xs, ys :: Enumerates(xs, a) && Enumerates(ys, b) ==> Complete(xs, ys)
  }

  /** Nothing is shared, or one element only, and that one is the largest on both sides. */
  ghost predicate OrderFree(a: set<int>, b: set<int>) {
    a * b == {} || exists s :: s in a && s in b && a * b == {s} && Largest(s, a + b)
  }

  lemma CompleteIfAllFound(a: set<int>, b: set<int>)
    ensures CompleteInAnyOrder(a, b) <==> forall s <- a * b :: FoundInAnyOrder(a, b, s)
  {
    if CompleteInAnyOrder(a, b) {
      forall s, xs, ys | s in a * b && Enumerates(xs, a) && Enumerates(ys, b) ensures s in Merge(xs, ys) {
        EnumeratesMembers(xs, a);
        EnumeratesMembers(ys, b);
        assert Complete(xs, ys);
      }
    }
    if forall s <- a * b :: FoundInAnyOrder(a, b, s) {
      forall xs, ys | Enumerates(xs, a) && Enumerates(ys, b) ensures Complete(xs, ys) {
        EnumeratesMembers(xs, a);
        EnumeratesMembers(ys, b);
        forall s | s in xs && s in ys ensures s in Merge(xs, ys) {
          assert s in a * b && FoundInAnyOrder(a, b, s);
        }
      }
    }
  }

  /** Every common element is found in every pair of orders if and only if there is none, or only one
      and it is the largest of all. */
  lemma CompleteInAnyOrderIff(a: set<int>, b: set<int>)
    ensures CompleteInAnyOrder(a, b) <==> OrderFree(a, b)
  {
    CompleteIfAllFound(a, b);
    forall s | s in a * b ensures FoundInAnyOrder(a, b, s) <==> Largest(s, a + b) {
      FoundInAnyOrderIff(a, b, s);
    }
    if a * b != {} {
      var s := SomeElement(a * b);
      if CompleteInAnyOrder(a, b) {
        forall t | t in a * b ensures t == s {
          assert Largest(s, a + b) && Largest(t, a + b) && s in a + b && t in a + b;
        }
        assert a * b == {s};
      }
    }
  }

  lemma {:induction false} SortedIsComplete(a: seq<int>, b: seq<int>)
    requires Sorted(a) && Sorted(b)
    ensures Complete(a, b)
    decreases |a| + |b|
  {
    if a != [] && b != [] {
      if a[0] < b[0] {
        SortedIsComplete(a[1..], b);
        assert a[0] !in b;
        assert a == [a[0]] + a[1..];
      } else if b[0] < a[0] {
        SortedIsComplete(a, b[1..]);
        assert b[0] !in a;
        assert b == [b[0]] + b[1..];
      } else {
        SortedIsComplete(a[1..], b[1..]);
        assert a == [a[0]] + a[1..] && b == [b[0]] + b[1..];
      }
    }
  }

  /** Two orders of one set of two ids for which an id in both is lost. */
  lemma UnsortedLosesAnId()
    ensures Enumerates([2, 1], {1, 2}) && Enumerates([1, 2], {1, 2})
    ensures Merge([2, 1], [1, 2]) == [2]
  {
    assert [2, 1][1..] == [1] && [1, 2][1..] == [2] && [2][1..] == [];
    assert Merge([2, 1], [2]) == [2] + Merge([1], []);
  }
}
