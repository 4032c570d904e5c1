/** Choosing an element at random with a probability proportional to its weight. */
module WeightedChoice {
  import opened Common

  /** The sum of the first i weights. */
  function Prefix(w: seq<int>, i: nat): int
    requires i <= |w|
  {
    Sum(w[..i])
  }

  lemma PrefixNext(w: seq<int>, i: nat)
    requires i < |w|
    ensures Prefix(w, i + 1) == Prefix(w, i) + w[i]
  {
    assert w[..i + 1] == w[..i] + [w[i]];
    SumAppend(w[..i], w[i]);
  }

  /** The largest of the first i + 1 prefix sums, the empty one included. */
  function Record(w: seq<int>, i: nat): int
    requires i <= |w|
  {
    if i == 0 then 0 else if Prefix(w, i) > Record(w, i - 1) then Prefix(w, i) else Record(w, i - 1)
  }

  function Total(w: seq<int>): int { Prefix(w, |w|) }

  /** No prefix sum up to the position exceeds the draw, and the next one does. */
  ghost predicate Selects(w: seq<int>, draw: int, index: nat) {
    index < |w| && (forall j: nat :: j <= index ==> Prefix(w, j) <= draw) && draw < Prefix(w, index + 1)
  }

  /** Weights are what the weighing callback returned for each element; draw is what Random(0, sum - 1)
      would return, so it only has to be in range when it is used. */
  method RandomByWeight(w: seq<int>, draw: int) returns (index: int)
    requires Total(w) > 0 ==> 0 <= draw < Total(w)
    ensures Total(w) <= 0 ==> index == -1
    ensures Total(w) > 0 ==> index >= 0 && Selects(w, draw, index)
  {
    var sum := 0;
    for i := 0 to |w|
      invariant sum == Prefix(w, i)
    {
      PrefixNext(w, i);
      sum := sum + w[i];
    }
    if sum <= 0 { return -1; }
    var rnd := draw;
    for i := 0 to |w|
      invariant rnd == draw - Prefix(w, i)
      invariant Total(w) > 0 && forall j: nat :: j <= i ==> Prefix(w, j) <= draw
    {
      PrefixNext(w, i);
      var weight := w[i];
      if rnd < weight { return i; }
      rnd := rnd - weight;
    }
    return -1;
  }

  /** The iterator variant; |w| stands for the end iterator. */
  method RandomItorByWeight(w: seq<int>, draw: int) returns (it: nat)
    requires Total(w) > 0 ==> 0 <= draw < Total(w)
    ensures Total(w) <= 0 ==> it == |w|
    ensures Total(w) > 0 ==> Selects(w, draw, it)
  {
    var sum := 0;
    for i := 0 to |w|
      invariant sum == Prefix(w, i)
    {
      PrefixNext(w, i);
      sum := sum + w[i];
    }
    if sum <= 0 { return |w|; }
    var rnd := draw;
    it := 0;
    while it < |w|
      invariant it <= |w| && rnd == draw - Prefix(w, it)
      invariant Total(w) > 0 && forall j: nat :: j <= it ==> Prefix(w, j) <= draw
    {
      PrefixNext(w, it);
      var weight := w[it];
      if rnd < weight { return; }
      rnd := rnd - weight;
      it := it + 1;
    }
  }

  lemma {:induction false} FirstAbove(w: seq<int>, draw: int, n: nat) returns (index: nat)
    requires n <= |w| && 0 <= draw < Prefix(w, n)
    ensures Selects(w, draw, index)
  {
    if forall j: nat :: j < n ==> Prefix(w, j) <= draw {
      index := n - 1;
    } else {
      var j: nat :| j < n && Prefix(w, j) > draw;
      index := FirstAbove(w, draw, j);
    }
  }

  /** On every draw below a positive sum exactly one position is selected, whatever the weights' signs:
      the choice never falls through, and the two variants agree. */
  lemma ExactlyOneIsSelected(w: seq<int>, draw: int)
    requires 0 <= draw < Total(w)
    ensures exists index: nat :: Selects(w, draw, index)
    ensures forall a: nat, b: nat :: Selects(w, draw, a) && Selects(w, draw, b) ==> a == b
  {
    var index := FirstAbove(w, draw, |w|);
  }

  lemma {:induction false} RecordIsMax(w: seq<int>, i: nat) returns (at: nat)
    requires i <= |w|
    ensures forall j: nat :: j <= i ==> Prefix(w, j) <= Record(w, i)
    ensures at <= i && Record(w, i) == Prefix(w, at)
  {
    if i == 0 {
      at := 0;
    } else {
      at := RecordIsMax(w, i - 1);
      if Prefix(w, i) > Record(w, i - 1) { at := i; }
      assert Prefix(w, i) <= Record(w, i);
    }
  }

  /** For weights of any signs, position i is selected by exactly the draws from the old record of the
      prefix sums up to the new one. */
  lemma SelectedBetweenRecords(w: seq<int>, draw: int, i: nat)
    requires i < |w|
    ensures Selects(w, draw, i) <==> Record(w, i) <= draw < Record(w, i + 1)
    ensures 0 <= Record(w, i) <= Record(w, i + 1)
  {
    var at := RecordIsMax(w, i);
    assert Prefix(w, 0) <= Record(w, i);
  }

  // ---- how many draws select a position ----

  /** The draws from Random(0, sum - 1) that select position i. */
  ghost function Draws(w: seq<int>, i: nat): set<int> {
    set draw | 0 <= draw < Total(w) && Selects(w, draw, i)
  }

  function Interval(low: int, high: int): set<int>
    decreases high - low
  {
    if low >= high then {} else Interval(low, high - 1) + {high - 1}
  }

  lemma {:induction false} IntervalSize(low: int, high: int)
    requires low <= high
    ensures |Interval(low, high)| == high - low
    ensures forall k :: k in Interval(low, high) <==> low <= k < high
    decreases high - low
  {
    if low < high {
      IntervalSize(low, high - 1);
    }
  }

  function Min(a: int, b: int): int { if a < b then a else b }

  /** For weights of any signs: how many of the draws select position i. */
  lemma HowManyDraws(w: seq<int>, i: nat)
    requires i < |w| && Total(w) > 0
    ensures |Draws(w, i)| == Min(Record(w, i + 1), Total(w)) - Min(Record(w, i), Total(w))
  {
    var low, high := Min(Record(w, i), Total(w)), Min(Record(w, i + 1), Total(w));
    SelectedBetweenRecords(w, 0, i);
    IntervalSize(low, high);
    forall draw ensures draw in Draws(w, i) <==> draw in Interval(low, high) {
      if 0 <= draw < Total(w) { SelectedBetweenRecords(w, draw, i); }
    }
    assert Draws(w, i) == Interval(low, high);
  }

  ghost predicate Nonnegative(w: seq<int>) {
    forall i :: 0 <= i < |w| ==> w[i] >= 0
  }

  lemma {:induction false} PrefixesGrow(w: seq<int>, i: nat, n: nat)
    requires Nonnegative(w) && i <= n <= |w|
    ensures Prefix(w, i) <= Prefix(w, n) && Record(w, n) == Prefix(w, n)
    decreases n
  {
    if n > 0 { PrefixNext(w, n - 1); }
    if i < n {
      PrefixesGrow(w, i, n - 1);
    } else if n > 0 {
      PrefixesGrow(w, n - 1, n - 1);
    }
  }

  /** When the weights sum to something positive, each position is selected by exactly as many of the
      draws as its weight says if and only if no weight is negative. */
  lemma DrawsMatchWeightsIffNonnegative(w: seq<int>)
    requires Total(w) > 0
    ensures (forall i: nat :: i < |w| ==> |Draws(w, i)| == w[i]) <==> Nonnegative(w)
  {
    if Nonnegative(w) {
      forall i: nat | i < |w| ensures |Draws(w, i)| == w[i] {
        HowManyDraws(w, i);
        PrefixNext(w, i);
        PrefixesGrow(w, i, |w|);
        PrefixesGrow(w, i + 1, |w|);
        PrefixesGrow(w, i, i);
        PrefixesGrow(w, i + 1, i + 1);
      }
    }
    if forall i: nat :: i < |w| ==> |Draws(w, i)| == w[i] {
      forall i | 0 <= i < |w| ensures w[i] >= 0 {
        var k: nat := i;
        assert |Draws(w, k)| == w[k];
      }
    }
  }
}
